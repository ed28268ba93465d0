/** When flash operations let other tasks run: the hooks of spi_flash_os_func_app.c, which keep two
    readings of a 32-bit microsecond timer, and spi_flash_chip_generic_yield. */
module YieldTimer {

  const WRAP: nat := 0x1_0000_0000

  /** The length of a pause that counts as one, and how long operations may go on without. */
  datatype Config = Config(gap: nat, duration: nat)

  datatype Ctx = Ctx(acquired: nat, released: nat)

  /** Subtraction of uint32_t. */
  function Sub32(a: nat, b: nat): nat {
    (a - b) % WRAP
  }

  function Reading(now: nat): nat {
    now % WRAP
  }

  /** on_spi_check_yield at the true time now. */
  function CheckYield(cfg: Config, ctx: Ctx, now: nat): (Ctx, bool) {
    if Sub32(Reading(now), ctx.released) >= cfg.gap then (ctx.(acquired := Reading(now)), false)
    else (ctx, Sub32(Reading(now), ctx.acquired) >= cfg.duration)
  }

  class AppFunc {
    const cfg: Config
    var acquiredSince: nat
    var releasedSince: nat

    function View(): Ctx
      reads this
    {
      Ctx(acquiredSince, releasedSince)
    }

    constructor (cfg: Config)
      ensures this.cfg == cfg && View() == Ctx(0, 0)
    {
      this.cfg, acquiredSince, releasedSince := cfg, 0, 0;
    }

    /** spi_flash_os_check_yield. */
    method OsCheckYield(now: nat) returns (request: bool)
      modifies this
      ensures (View(), request) == CheckYield(cfg, old(View()), now)
      ensures request ==> View() == old(View())
    {
      var time := Reading(now);
      request := false;
      if Sub32(time, releasedSince) >= cfg.gap {
        acquiredSince := time;
      } else if Sub32(time, acquiredSince) >= cfg.duration {
        request := true;
      }
    }

    /** spi_flash_os_yield: now is the time after the delay. */
    method OsYield(now: nat)
      modifies this
      ensures View() == old(View()).(acquired := Reading(now))
    {
      acquiredSince := Reading(now);
    }

    /** on_spi_released. */
    method Released(now: nat)
      modifies this
      ensures View() == old(View()).(released := Reading(now))
    {
      releasedSince := Reading(now);
    }

    /** One step of an erase or write, from the check through the release. The true time of the
        release before it is now. */
    method Operate(now: nat, step: Step, ghost ref: nat) returns (end: nat)
      modifies this
      ensures After(cfg, State(now, old(View()), ref), step).ctx == View()
      ensures After(cfg, State(now, old(View()), ref), step).now == end
    {
      end := now + step.gap;
      var request := OsCheckYield(end);
      if request {
        end := end + step.pause;
        OsYield(end);
      }
      end := end + step.work;
      Released(end);
    }
  }

  // ---------------------------------------------------------------------------------------
  // Runs
  // ---------------------------------------------------------------------------------------

  /** One step: how long after the last release the check comes, how long the yield takes if one is
      requested, and how long the bus is then in use. */
  datatype Step = Step(gap: nat, pause: nat, work: nat)

  /** The true time of the last release, what the hooks remember, and the true time of the last
      yield or pause of sufficient length. */
  datatype State = State(now: nat, ctx: Ctx, ref: nat)

  function After(cfg: Config, s: State, step: Step): State {
    var check := s.now + step.gap;
    var (ctx, request) := CheckYield(cfg, s.ctx, check);
    var begin := if request then check + step.pause else check;
    var yielded := if request then ctx.(acquired := Reading(begin)) else ctx;
    var ref := if request then begin else if step.gap >= cfg.gap then check else s.ref;
    State(begin + step.work, yielded.(released := Reading(begin + step.work)), ref)
  }

  function Run(cfg: Config, s: State, steps: seq<Step>): State {
    if steps == [] then s else After(cfg, Run(cfg, s, steps[..|steps| - 1]), steps[|steps| - 1])
  }

  const BOOT := State(0, Ctx(0, 0), 0)

  /** What the hooks believe to have elapsed since the last yield or pause. */
  function Believed(s: State): nat {
    Sub32(Reading(s.now), s.ctx.acquired)
  }

  /** The belief errs on the side of yielding too early: it is at least what has really elapsed. */
  predicate Bounded(cfg: Config, s: State, work: nat) {
    && s.ctx.released == Reading(s.now) && s.ctx.acquired < WRAP
    && s.ref <= s.now && s.now - s.ref <= Believed(s) < cfg.duration + work
  }

  /** The timer difference after a while, if it has not wrapped. */
  lemma Later(now: nat, d: nat, since: nat)
    requires since < WRAP && Sub32(Reading(now), since) + d < WRAP
    ensures Sub32(Reading(now + d), since) == Sub32(Reading(now), since) + d
  {
  }

  lemma SameReading(now: nat)
    ensures Sub32(Reading(now), Reading(now)) == 0
  {
  }

  /** A pause that the timer difference shows is a pause; a short one is never missed. */
  lemma GapSeen(now: nat, gap: nat)
    ensures Sub32(Reading(now + gap), Reading(now)) <= gap
    ensures gap < WRAP ==> Sub32(Reading(now + gap), Reading(now)) == gap
  {
  }

  lemma StepStaysBounded(cfg: Config, s: State, step: Step, work: nat)
    requires Bounded(cfg, s, work) && step.work <= work
    requires cfg.duration > 0 && cfg.duration + work + cfg.gap <= WRAP
    ensures Bounded(cfg, After(cfg, s, step), work)
  {
    var check := s.now + step.gap;
    GapSeen(s.now, step.gap);
    if step.gap < cfg.gap {
      Later(s.now, step.gap, s.ctx.acquired);
    }
    var (ctx, request) := CheckYield(cfg, s.ctx, check);
    if request {
      SameReading(check + step.pause);
      Later(check + step.pause, step.work, Reading(check + step.pause));
    } else {
      SameReading(check);
      Later(check, step.work, ctx.acquired);
    }
  }

  lemma {:induction false} RunStaysBounded(cfg: Config, steps: seq<Step>, work: nat)
    requires forall i :: 0 <= i < |steps| ==> steps[i].work <= work
    requires cfg.duration > 0 && cfg.duration + work + cfg.gap <= WRAP
    ensures Bounded(cfg, Run(cfg, BOOT, steps), work)
    decreases |steps|
  {
    if steps != [] {
      RunStaysBounded(cfg, steps[..|steps| - 1], work);
      StepStaysBounded(cfg, Run(cfg, BOOT, steps[..|steps| - 1]), steps[|steps| - 1], work);
    }
  }

  /** No starvation: over any number of erase or write steps, each of which takes at most work from
      its check to its release, the time since the last yield or pause is below the configured
      duration plus work at every release, however often the timer has wrapped and whatever pauses
      the timer difference failed to show. */
  lemma StarvationIsBounded(cfg: Config, steps: seq<Step>, work: nat)
    requires forall i :: 0 <= i < |steps| ==> steps[i].work <= work
    requires cfg.duration > 0 && cfg.duration + work + cfg.gap <= WRAP
    ensures var s := Run(cfg, BOOT, steps); s.now - s.ref < cfg.duration + work
  {
    RunStaysBounded(cfg, steps, work);
  }

  /** As long as no pause between steps lasts for a whole turn of the timer, the belief is exact. */
  predicate Exact(cfg: Config, s: State, work: nat) {
    Bounded(cfg, s, work) && Believed(s) == s.now - s.ref
  }

  lemma StepStaysExact(cfg: Config, s: State, step: Step, work: nat)
    requires Exact(cfg, s, work) && step.work <= work && step.gap < WRAP
    requires cfg.duration > 0 && cfg.duration + work + cfg.gap <= WRAP
    ensures Exact(cfg, After(cfg, s, step), work)
    ensures CheckYield(cfg, s.ctx, s.now + step.gap).1 <==>
              step.gap < cfg.gap && s.now + step.gap - s.ref >= cfg.duration
  {
    var check := s.now + step.gap;
    StepStaysBounded(cfg, s, step, work);
    GapSeen(s.now, step.gap);
    if step.gap < cfg.gap {
      Later(s.now, step.gap, s.ctx.acquired);
    }
    var (ctx, request) := CheckYield(cfg, s.ctx, check);
    if request {
      SameReading(check + step.pause);
      Later(check + step.pause, step.work, Reading(check + step.pause));
    } else {
      SameReading(check);
      Later(check, step.work, ctx.acquired);
    }
  }

  lemma {:induction false} RunStaysExact(cfg: Config, steps: seq<Step>, work: nat)
    requires forall i :: 0 <= i < |steps| ==> steps[i].work <= work && steps[i].gap < WRAP
    requires cfg.duration > 0 && cfg.duration + work + cfg.gap <= WRAP
    ensures Exact(cfg, Run(cfg, BOOT, steps), work)
    decreases |steps|
  {
    if steps != [] {
      RunStaysExact(cfg, steps[..|steps| - 1], work);
      StepStaysExact(cfg, Run(cfg, BOOT, steps[..|steps| - 1]), steps[|steps| - 1], work);
    }
  }

  /** After any such run a yield is requested exactly when the configured duration has passed since
      the last yield or pause, and the step does not itself follow a pause. */
  lemma YieldsExactlyWhenDue(cfg: Config, steps: seq<Step>, step: Step, work: nat)
    requires forall i :: 0 <= i < |steps| ==> steps[i].work <= work && steps[i].gap < WRAP
    requires step.work <= work && step.gap < WRAP
    requires cfg.duration > 0 && cfg.duration + work + cfg.gap <= WRAP
    ensures var s := Run(cfg, BOOT, steps);
            CheckYield(cfg, s.ctx, s.now + step.gap).1 <==>
              step.gap < cfg.gap && s.now + step.gap - s.ref >= cfg.duration
  {
    RunStaysExact(cfg, steps, work);
    StepStaysExact(cfg, Run(cfg, BOOT, steps), step, work);
  }

  /** A pause of exactly one turn of the timer is not seen: the next check asks for a yield that is
      not due. */
  lemma WholeTurnIsMissed(cfg: Config, work: nat)
    requires 0 < cfg.gap && 0 < cfg.duration <= work && cfg.duration + work + cfg.gap <= WRAP
    ensures var steps := [Step(0, 0, work)];
            var s := Run(cfg, BOOT, steps);
            CheckYield(cfg, s.ctx, s.now + WRAP).1
  {
    assert Run(cfg, BOOT, []) == BOOT;
    assert [Step(0, 0, work)][..0] == [];
    GapSeen(0, 0);
  }
}
