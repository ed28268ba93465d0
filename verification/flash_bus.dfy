/** What goes over the SPI bus: the events of flash operations, and a summary of any sequence of
    them that says whether everyone kept to the bus discipline. */
module FlashBus {
  import opened ErasePlan
  import opened MemspiHost

  datatype Event =
    | Yield(yieldOk: bool)
    | Start(startOk: bool)
    | End(endOk: bool)
    | ReadProtection(readOk: bool)
    | Configure(configureOk: bool)     // the host, for the reads that follow
    | Ready                            // the chip was seen to be idle
    | WriteProtect(on: bool)           // WRDI or WREN
    | Program(at: nat, size: nat, accepted: bool)
    | Erase(unit: Command, accepted: bool)
    | Read(from: nat, amount: nat)
    | Flush

  datatype Bus = Idle | Held | Broken

  /** The discipline: a start only on an idle bus, everything else only on a held one; yielding
      is for the time in between. */
  function Step(bus: Bus, event: Event): Bus {
    match event
    case Yield(_) => if bus == Idle then Idle else Broken
    case Start(ok) => if bus != Idle then Broken else if ok then Held else Idle
    case End(_) => if bus == Held then Idle else Broken
    case _ => if bus == Held then Held else Broken
  }

  /** How often the chip was seen to be idle, and writes were enabled and disabled. */
  datatype Upkeep = Upkeep(polls: nat, enables: nat, disables: nat)

  /** The upkeep after some more polls and enables, and nothing else. */
  function Upkept(u: Upkeep, polls: nat, enables: nat): Upkeep {
    Upkeep(u.polls + polls, u.enables + enables, u.disables)
  }

  /** After one more poll, and a command that disables writes or enables them. */
  function Latched(u: Upkeep, on: bool): Upkeep {
    if on then Upkeep(u.polls + 1, u.enables, u.disables + 1) else Upkeep(u.polls + 1, u.enables + 1, u.disables)
  }

  /** What a sequence of events amounts to: the state of the bus, the number of program and erase
      commands the chip did not accept, the number of requests to the operating system, the bus and the
      host that failed, that of the ends among them, all of those and without the last event, the numbers
      of yields, starts and cache flushes, and the page programs and the erase commands in order. The chip
      is ready if it was seen to be idle after the last program or erase command; hasty counts the commands
      sent to a chip that was not. */
  datatype Summary = Summary(bus: Bus, refused: nat, failures: nat, failedEnds: nat, failedBefore: nat,
                             pauses: nat, starts: nat, flushes: nat, sent: seq<Slice>, erases: seq<Command>,
                             ready: bool, hasty: nat, upkeep: Upkeep)

  /** A command that keeps the chip busy. */
  predicate Changes(event: Event) {
    event.Program? || event.Erase?
  }

  predicate Refused(event: Event) {
    Changes(event) && !event.accepted
  }

  predicate Failed(event: Event) {
    match event
    case Yield(ok) => !ok
    case Start(ok) => !ok
    case End(ok) => !ok
    case ReadProtection(ok) => !ok
    case Configure(ok) => !ok
    case _ => false
  }

  function Next(s: Summary, event: Event): Summary {
    Summary(
      Step(s.bus, event),
      s.refused + (if Refused(event) then 1 else 0),
      s.failures + (if Failed(event) then 1 else 0),
      s.failedEnds + (if event == End(false) then 1 else 0),
      s.failedEnds,
      s.pauses + (if event.Yield? then 1 else 0),
      s.starts + (if event.Start? then 1 else 0),
      s.flushes + (if event == Flush then 1 else 0),
      if event.Program? then s.sent + [Slice(event.at, event.size)] else s.sent,
      if event.Erase? then s.erases + [event.unit] else s.erases,
      event == Ready || (s.ready && !Changes(event)),
      s.hasty + (if Changes(event) && !s.ready then 1 else 0),
      Upkeep(s.upkeep.polls + (if event == Ready then 1 else 0),
             s.upkeep.enables + (if event == WriteProtect(false) then 1 else 0),
             s.upkeep.disables + (if event == WriteProtect(true) then 1 else 0))
    )
  }

  const START := Summary(Idle, 0, 0, 0, 0, 0, 0, 0, [], [], false, 0, Upkeep(0, 0, 0))

  function Summarise(events: seq<Event>): Summary {
    if events == [] then START
    else Next(Summarise(events[..|events| - 1]), events[|events| - 1])
  }

  /** Between two summaries only commands to the chip went over the bus, none of them an erase. */
  predicate OnlyCommands(before: Summary, after: Summary) {
    && after.bus == before.bus && after.failedEnds == before.failedEnds && after.failures == before.failures
    && after.erases == before.erases && after.flushes == before.flushes && after.refused >= before.refused
    && after.pauses == before.pauses && after.starts == before.starts
  }

  /** Of the given commands a part has been sent, in order, or all of them. */
  ghost predicate Sent<T>(before: seq<T>, after: seq<T>, commands: seq<T>, all: bool) {
    && before <= after <= before + commands
    && (all ==> after == before + commands)
  }

  /** Those that are not left have been sent; if one fails, nothing more is. */
  ghost predicate SentBut<T>(before: seq<T>, after: seq<T>, commands: seq<T>, left: seq<T>, ok: bool) {
    if ok then
      && |left| <= |commands| && commands == commands[..|commands| - |left|] + left
      && after == before + commands[..|commands| - |left|]
    else Sent(before, after, commands, false)
  }

  lemma NextSent<T>(before: seq<T>, was: seq<T>, now: seq<T>, commands: seq<T>, left: seq<T>, next: seq<T>,
                    rest: seq<T>, ok: bool)
    requires left == next + rest && SentBut(before, was, commands, left, true) && Sent(was, now, next, ok)
    ensures SentBut(before, now, commands, rest, ok)
  {
    var first := commands[..|commands| - |left|];
    assert commands == first + next + rest;
    assert before + commands == before + first + next + rest;
    if ok {
      assert commands[..|commands| - |rest|] == first + next;
      assert before + (first + next) == before + first + next;
    }
  }

  lemma AllSent<T>(before: seq<T>, now: seq<T>, commands: seq<T>, left: seq<T>, ok: bool)
    requires SentBut(before, now, commands, left, ok) && (ok ==> left == [])
    ensures Sent(before, now, commands, ok)
  {
    if ok {
      assert commands[..|commands|] == commands;
    }
  }

  lemma NothingSent<T>(before: seq<T>, commands: seq<T>)
    ensures SentBut(before, before, commands, commands, true) && Sent(before, before, commands, false)
  {
    assert commands[..0] == [] && before + [] == before;
  }

  /** The summary after any number of read events on a held bus, at least one. */
  function AfterReads(before: Summary): Summary {
    before.(failedBefore := before.failedEnds)
  }

  /** Only reads: nothing was refused and nothing programmed. */
  predicate OnlyReads(before: Summary, after: Summary) {
    OnlyCommands(before, after) && after.refused == before.refused && after.sent == before.sent
  }

  /** An operation that found the bus idle leaves it idle, unless an end failed before its last
      event. */
  predicate Disciplined(before: Summary, after: Summary) {
    after.bus == if after == before || after.failedBefore == before.failedEnds then Idle else Broken
  }

  /** The chip was seen to be idle at event j, and nothing before event n has made it busy since. */
  predicate IdleSince(events: seq<Event>, j: nat, n: nat)
    requires n <= |events|
  {
    j < n && events[j] == Ready && forall k :: j < k < n ==> !Changes(events[k])
  }

  lemma {:induction false} ReadyWasSeen(events: seq<Event>, n: nat) returns (j: nat)
    requires n <= |events| && Summarise(events[..n]).ready
    ensures IdleSince(events, j, n)
  {
    assert n > 0 && events[..n][..n - 1] == events[..n - 1];
    if events[n - 1] == Ready {
      j := n - 1;
    } else {
      j := ReadyWasSeen(events, n - 1);
    }
  }

  /** If no command was hasty, the chip was seen to be idle before every program and erase command,
      after the one before it. */
  lemma {:induction false} EveryCommandWaits(events: seq<Event>, n: nat, i: nat) returns (j: nat)
    requires n <= |events| && Summarise(events[..n]).hasty == 0 && i < n && Changes(events[i])
    ensures IdleSince(events, j, i)
    decreases n
  {
    assert events[..n][..n - 1] == events[..n - 1];
    if i < n - 1 {
      j := EveryCommandWaits(events, n - 1, i);
    } else {
      j := ReadyWasSeen(events, i);
    }
  }

  /** Number of successful starts, and of ends. */
  function Starts(events: seq<Event>): nat {
    if events == [] then 0
    else Starts(events[..|events| - 1]) + (if events[|events| - 1] == Start(true) then 1 else 0)
  }

  function Ends(events: seq<Event>): nat {
    if events == [] then 0
    else Ends(events[..|events| - 1]) + (if events[|events| - 1].End? then 1 else 0)
  }

  /** On a disciplined bus every successful start has its end, except one that still holds it. */
  lemma {:induction false} StartsMatchEnds(events: seq<Event>)
    requires Summarise(events).bus != Broken
    ensures Starts(events) == Ends(events) + (if Summarise(events).bus == Held then 1 else 0)
  {
    if events != [] {
      StartsMatchEnds(events[..|events| - 1]);
    }
  }

  /** Every command that programs, erases or reads is sent while the bus is held. */
  lemma {:induction false} CommandsOnHeldBus(events: seq<Event>, i: nat)
    requires Summarise(events).bus != Broken && i < |events|
    requires events[i].Program? || events[i].Erase? || events[i].Read?
    ensures Summarise(events[..i]).bus == Held
    decreases |events|
  {
    var n := |events| - 1;
    if i < n {
      CommandsOnHeldBus(events[..n], i);
      assert events[..n][..i] == events[..i];
    }
  }

  /** The page programs among the events respect the limits of the host and of the chip. */
  predicate ProgramFits(event: Event, dtr: bool, pageSize: nat, chipSize: nat)
    requires pageSize > 0
  {
    event.Program? ==>
      && event.size <= MAX_WRITE_BYTES && WithinPage(event.at, event.size, pageSize)
      && event.at + event.size <= chipSize
      && (dtr ==> event.at % 2 == 0 && event.size % 2 == 0)
  }

  predicate ProgramsFit(events: seq<Event>, dtr: bool, pageSize: nat, chipSize: nat)
    requires pageSize > 0
  {
    events == [] || (
      && ProgramsFit(events[..|events| - 1], dtr, pageSize, chipSize)
      && ProgramFits(events[|events| - 1], dtr, pageSize, chipSize))
  }

  /** The summary is that of the events, and the page programs among them fit. The same as saying so
      with the two functions above, but through all the summaries on the way. */
  ghost predicate Recorded(events: seq<Event>, s: Summary, dtr: bool, pageSize: nat, chipSize: nat)
    requires pageSize > 0
  {
    exists states: seq<Summary> :: Trace(states, events, s, dtr, pageSize, chipSize)
  }

  ghost predicate Trace(states: seq<Summary>, events: seq<Event>, s: Summary, dtr: bool, pageSize: nat, chipSize: nat)
    requires pageSize > 0
  {
    && |states| == |events| + 1 && states[0] == START && states[|events|] == s
    && forall i: nat {:trigger TraceStep(states, events, i, dtr, pageSize, chipSize)} ::
         i < |events| ==> TraceStep(states, events, i, dtr, pageSize, chipSize)
  }

  predicate TraceStep(states: seq<Summary>, events: seq<Event>, i: nat, dtr: bool, pageSize: nat, chipSize: nat)
    requires pageSize > 0 && i < |events| && |states| == |events| + 1
  {
    states[i + 1] == Next(states[i], events[i]) && ProgramFits(events[i], dtr, pageSize, chipSize)
  }

  lemma RecordNothing(dtr: bool, pageSize: nat, chipSize: nat)
    requires pageSize > 0
    ensures Recorded([], START, dtr, pageSize, chipSize)
  {
    assert Trace([START], [], START, dtr, pageSize, chipSize);
  }

  lemma RecordOneMore(events: seq<Event>, s: Summary, event: Event, dtr: bool, pageSize: nat, chipSize: nat)
    requires pageSize > 0 && Recorded(events, s, dtr, pageSize, chipSize) && ProgramFits(event, dtr, pageSize, chipSize)
    ensures Recorded(events + [event], Next(s, event), dtr, pageSize, chipSize)
  {
    var states :| Trace(states, events, s, dtr, pageSize, chipSize);
    var more, all := states + [Next(s, event)], events + [event];
    forall i: nat | i < |all| ensures TraceStep(more, all, i, dtr, pageSize, chipSize) {
      if i < |events| {
        assert TraceStep(states, events, i, dtr, pageSize, chipSize);
      }
    }
    assert Trace(more, all, Next(s, event), dtr, pageSize, chipSize);
  }

  lemma {:induction false} TraceIsSummary(states: seq<Summary>, events: seq<Event>, s: Summary, k: nat,
                                          dtr: bool, pageSize: nat, chipSize: nat)
    requires pageSize > 0 && k <= |events| && Trace(states, events, s, dtr, pageSize, chipSize)
    ensures states[k] == Summarise(events[..k]) && ProgramsFit(events[..k], dtr, pageSize, chipSize)
  {
    if k > 0 {
      TraceIsSummary(states, events, s, k - 1, dtr, pageSize, chipSize);
      assert TraceStep(states, events, k - 1, dtr, pageSize, chipSize);
      assert events[..k][..k - 1] == events[..k - 1] && events[..k][k - 1] == events[k - 1];
    }
  }

  lemma RecordedSummary(events: seq<Event>, s: Summary, dtr: bool, pageSize: nat, chipSize: nat)
    requires pageSize > 0 && Recorded(events, s, dtr, pageSize, chipSize)
    ensures s == Summarise(events) && ProgramsFit(events, dtr, pageSize, chipSize)
  {
    var states :| Trace(states, events, s, dtr, pageSize, chipSize);
    TraceIsSummary(states, events, s, |events|, dtr, pageSize, chipSize);
    assert events[..|events|] == events;
  }

  /** Every page program among them is at most 64 bytes long and stays within one page. */
  lemma {:induction false} EveryProgramFits(events: seq<Event>, i: nat, dtr: bool, pageSize: nat, chipSize: nat)
    requires pageSize > 0 && ProgramsFit(events, dtr, pageSize, chipSize)
    requires i < |events| && events[i].Program?
    ensures events[i].size <= 64 && WithinPage(events[i].at, events[i].size, pageSize)
    ensures events[i].at + events[i].size <= chipSize
    decreases |events|
  {
    if i < |events| - 1 {
      EveryProgramFits(events[..|events| - 1], i, dtr, pageSize, chipSize);
    }
  }
}
