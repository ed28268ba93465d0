/** The guarantees of the firmware update over whole runs: any environment, any sequence of
    packets (duplicate, reordered, late, of any content), timeouts and user aborts. */
module OtaRuns {
  import opened Arith
  import opened OtaSpec
  import opened OtaProperties

  /** What an update starts from: the state left by whatever came before, the configuration, and
      whether updater and callbacks are there. */
  datatype Beginning = Beginning(previous: Ota, cfg: Config, updaterPresent: bool)

  predicate ValidBeginning(b: Beginning) {
    ValidConfig(b.cfg) && TotalChunks(b.cfg.fwSize, b.cfg.chunkSize) >= 1
  }

  predicate Clean(b: Beginning) {
    CleanStart(b.previous, b.updaterPresent)
  }

  function Begin(e: Env, b: Beginning): Ota
    requires ValidBeginning(b)
  {
    Start(e, b.previous, b.cfg, b.updaterPresent)
  }

  /** The state after Start_Firmware_Update and any possible events. */
  ghost predicate Reaches(e: Env, b: Beginning, events: seq<Event>, s: Ota) {
    && ValidBeginning(b) && Begin(e, b).total >= 1
    && AllPossible(e, Begin(e, b), events)
    && s == Run(e, Begin(e, b), events)
  }

  /** No packet of the chunk it waits for reaches an update that has ended. */
  predicate NoLatePacketsIn(e: Env, b: Beginning, events: seq<Event>)
    requires ValidBeginning(b) && Begin(e, b).total >= 1
  {
    NoLatePackets(e, Begin(e, b), events)
  }

  /** Nor is an update aborted that has ended. */
  predicate Undisturbed(e: Env, b: Beginning, events: seq<Event>)
    requires ValidBeginning(b) && Begin(e, b).total >= 1
  {
    NoLatePacketsIn(e, b, events) && NoLateAborts(e, Begin(e, b), events)
  }

  lemma CleanBegin(e: Env, b: Beginning)
    requires ValidBeginning(b) && Clean(b)
    ensures Good(e, Begin(e, b)) && Begin(e, b).cfg == b.cfg
    ensures Begin(e, b).total == TotalChunks(b.cfg.fwSize, b.cfg.chunkSize)
  {
    StartGood(e, b.previous, b.cfg, b.updaterPresent);
  }

  /** Between events an update that is not over has stored exactly what it has hashed, waits for
      one chunk, and has the watchdog running; an update that is over has no watchdog running,
      and called each of its two callbacks once, with success exactly after a successful
      updater->end. */
  predicate AtBoundary(s: Ota) {
    var o := Seen(s);
    && !o.crashed
    && (if o.ends == [] then
          && o.written == o.hashed == Flatten(o.parts) && |o.parts| == s.requested
          && o.outstanding == [s.requested] && s.requested < s.total && s.armed
          && o.finishes == 0 && o.commits == 0
        else
          && |o.ends| == 1 && o.finishes == 1 && !s.armed
          && o.commits == (if o.ends[0] then 1 else 0))
  }

  /** That is so after a run if and only if the updater and the callbacks were there or no watchdog was
      running before (the path that finds one missing does not stop it), and no packet or abort came
      too late. */
  lemma BoundaryState(e: Env, b: Beginning, events: seq<Event>, s: Ota)
    requires Reaches(e, b, events, s)
    ensures AtBoundary(s) <==> Clean(b) && Undisturbed(e, b, events)
    ensures !AtBoundary(s) <==> Broken(s)
  {
    if !Clean(b) {
      StartWithoutUpdater(e, b.previous, b.cfg);
      BrokenRun(e, Begin(e, b), events);
    } else {
      CleanBegin(e, b);
      if Undisturbed(e, b, events) {
        RunGood(e, Begin(e, b), events);
      } else {
        LateEventBreaksRun(e, Begin(e, b), events);
      }
    }
  }

  lemma OneMoreReaches(e: Env, b: Beginning, events: seq<Event>, s: Ota, event: Event)
    requires Reaches(e, b, events, s) && Possible(s, event)
    ensures Reaches(e, b, events + [event], React(e, s, event))
  {
    assert (events + [event])[..|events|] == events;
  }

  /** An update that was at the boundary and had ended is so no longer after an abort: it is told to have
      failed, also if it was told to be a success; the second abort calls the null callback. */
  lemma LateAbortBreaks(e: Env, b: Beginning, events: seq<Event>, s: Ota)
    requires Reaches(e, b, events, s) && Clean(b) && Undisturbed(e, b, events) && Ended(s)
    ensures Reaches(e, b, events + [Abort], Stop(e, s))
    ensures var o, p := Seen(s), Seen(Stop(e, s));
            && p.crashed == !s.callbackSet
            && p.ends == (if s.callbackSet then [o.ends[0], false] else o.ends)
            && p.finishes == (if s.callbackSet then 2 else 1)
  {
    CleanBegin(e, b);
    RunGood(e, Begin(e, b), events);
    LateAbortEffect(e, s);
    OneMoreReaches(e, b, events, s, Abort);
  }

  /** After a start the watchdog is off or watches a request of this update, on the same condition. */
  lemma WatchdogAfterStart(e: Env, b: Beginning)
    requires ValidBeginning(b)
    ensures (!Begin(e, b).armed || Seen(Begin(e, b)).outstanding != []) <==> Clean(b)
  {
    if Clean(b) {
      StartGood(e, b.previous, b.cfg, b.updaterPresent);
    } else {
      StartWithoutUpdater(e, b.previous, b.cfg);
    }
  }

  lemma EndsAgain(s: Ota)
    requires Seen(s).ends == [false] && Seen(s).finishes == 1 && s.callbackSet
    ensures Seen(EndUpdate(s, false)).ends == [false, false] && Seen(EndUpdate(s, false)).finishes == 2
  {
    SeenEndUpdate(s, false);
  }

  lemma RequestsAgain(s: Ota)
    ensures var t := Log(Log(s, Publish(s.requested)), Arm);
            Seen(t).ends == Seen(s).ends && Seen(t).outstanding == [s.requested] && t.armed
  {
    SeenOne(s, Publish(s.requested));
    SeenOne(Log(s, Publish(s.requested)), Arm);
  }

  lemma LeftoverTimeout(e: Env, s: Ota)
    requires s.total >= 1 && Seen(s).ends == [false] && Seen(s).finishes == 1 && s.callbackSet
    ensures var t := TimeOut(e, s);
            if s.retries == 0 then
              Seen(t).ends == [false, false] && Seen(t).finishes == 2
            else if s.requested < s.total then
              Seen(t).ends == [false] && Seen(t).outstanding == [s.requested] && t.armed
            else
              t == FinishUpdate(e, Log(s, Fired).(retries := s.retries - 1))
  {
    var fired := Log(s, Fired);
    SeenOne(s, Fired);
    if s.retries == 0 {
      EndsAgain(fired);
    } else if s.requested < s.total {
      var less := fired.(retries := s.retries - 1);
      assert Seen(less) == Seen(fired);
      RequestsAgain(less);
    }
  }

  /** What the watchdog of the previous update does to one that ended for want of an updater: it ends
      it again, or requests a chunk of it, or finishes it on whatever had been hashed before. */
  lemma LeftoverWatchdogFires(e: Env, b: Beginning)
    requires ValidBeginning(b) && !Clean(b)
    ensures Begin(e, b).total >= 1
    ensures var s := Begin(e, b);
            var t := TimeOut(e, s);
            && Reaches(e, b, [Timeout], t)
            && (if s.retries == 0 then
                  Seen(t).ends == [false, false] && Seen(t).finishes == 2
                else if s.requested < s.total then
                  Seen(t).ends == [false] && Seen(t).outstanding == [s.requested] && t.armed
                else
                  t == FinishUpdate(e, Log(s, Fired).(retries := s.retries - 1)))
  {
    StartWithoutUpdater(e, b.previous, b.cfg);
    OneMoreReaches(e, b, [], Begin(e, b), Timeout);
    assert [] + [Timeout] == [Timeout];
    LeftoverTimeout(e, Begin(e, b));
  }

  // ---------------------------------------------------------------------------------------
  // Commits
  // ---------------------------------------------------------------------------------------

  /** The watchdog of the previous update is left running, with retries to spend, over as many chunks
      as the new update has and their very digest. */
  predicate Leftover(e: Env, b: Beginning)
    requires ValidBeginning(b)
  {
    && !Clean(b) && b.previous.retries >= 2
    && b.previous.requested >= TotalChunks(b.cfg.fwSize, b.cfg.chunkSize)
    && e.digest(b.previous.hashed) == b.cfg.checksum
  }

  predicate NoCommits(log: seq<Entry>) {
    forall i :: 0 <= i < |log| ==> !log[i].UpdaterEnd?
  }

  /** The update is over but for a watchdog that still requests chunks. */
  predicate Lingering(s: Ota) {
    s.total >= 1 && NoCommits(s.log) && Ended(s) && (s.armed ==> s.requested < s.total)
  }

  lemma LogLingers(s: Ota, entry: Entry)
    requires Lingering(s) && !entry.UpdaterEnd? && (entry.Arm? ==> s.requested < s.total)
    ensures Lingering(Log(s, entry))
  {
    LogEnded(s, entry);
  }

  lemma EndLingers(s: Ota)
    requires Lingering(s)
    ensures Lingering(EndUpdate(s, false))
  {
    if s.callbackSet {
      LogLingers(s, EndCallback(false));
      LogLingers(Log(s, EndCallback(false)), FinishCallback);
    } else {
      LogLingers(s, NullCall);
    }
  }

  lemma RequestLingers(e: Env, s: Ota)
    requires Lingering(s) && s.requested < s.total
    ensures Lingering(RequestNext(e, s))
  {
    var asked := Log(s, Publish(s.requested));
    LogLingers(s, Publish(s.requested));
    LogLingers(asked, Arm);
    LogLingers(asked, NullCall);
  }

  lemma RestartLingers(e: Env, s: Ota)
    requires Lingering(s)
    ensures Lingering(RequestFirst(e, s))
  {
    if s.callbackSet {
      var first := s.(requested := 0, retries := s.cfg.chunkRetries, hashed := []);
      assert Lingering(first);
      LogLingers(first, HashStart);
      LogLingers(Log(first, HashStart), Detach);
      var stopped := Log(Log(first, HashStart), Detach);
      LogLingers(stopped, UpdaterReset);
      RequestLingers(e, Log(stopped, UpdaterReset));
    } else {
      assert Lingering(s.(requested := 0));
      LogLingers(s.(requested := 0), NullCall);
    }
  }

  lemma MismatchLingers(e: Env, s: Ota)
    requires Lingering(s) && e.digest(s.hashed) != s.cfg.checksum
    ensures Lingering(FinishUpdate(e, s))
  {
    assert FinishUpdate(e, s) == HandleFailure(e, s, RetryUpdate);
    if s.retries == 0 {
      EndLingers(s);
    } else {
      var less := s.(retries := s.retries - 1);
      assert Lingering(less);
      RestartLingers(e, less);
    }
  }

  lemma TimeOutLingers(e: Env, s: Ota)
    requires s.total >= 1 && NoCommits(s.log) && Ended(s)
    requires s.requested < s.total || s.retries == 0 || e.digest(s.hashed) != s.cfg.checksum
    ensures Lingering(TimeOut(e, s))
  {
    var fired := Log(s, Fired);
    LogEnded(s, Fired);
    if s.retries == 0 {
      EndLingers(fired);
    } else {
      var less := fired.(retries := s.retries - 1);
      assert Lingering(less);
      assert TimeOut(e, s) == RequestNext(e, less);
      if s.requested < s.total {
        RequestLingers(e, less);
      } else {
        MismatchLingers(e, less);
      }
    }
  }

  lemma StopLingers(e: Env, s: Ota)
    requires s.total >= 1 && NoCommits(s.log) && Ended(s)
    ensures Lingering(Stop(e, s))
  {
    var detached := Log(s, Detach);
    LogEnded(s, Detach);
    LogLingers(detached, UpdaterReset);
    StopIs(e, s);
    assert Lingering(StopBase(s));
    EndLingers(StopBase(s));
  }

  /** What the leftover watchdog can do at its first timeout, and an update that lingers at any. */
  predicate Harmless(e: Env, s: Ota) {
    && s.total >= 1 && NoCommits(s.log) && Ended(s)
    && (s.armed ==> s.requested < s.total || s.retries == 0 || e.digest(s.hashed) != s.cfg.checksum)
  }

  lemma ReactHarmless(e: Env, s: Ota, event: Event)
    requires Harmless(e, s) && Possible(s, event) && !LatePacket(s, event)
    ensures Harmless(e, React(e, s, event))
  {
    match event
    case Packet(chunk, payload) => LogEnded(s, Received(chunk, payload));
    case Timeout => TimeOutLingers(e, s);
    case Abort => StopLingers(e, s);
  }

  lemma {:induction false} HarmlessRun(e: Env, s: Ota, events: seq<Event>)
    requires Harmless(e, s) && AllPossible(e, s, events) && NoLatePackets(e, s, events)
    ensures Harmless(e, Run(e, s, events))
    decreases |events|
  {
    if events != [] {
      var n := |events| - 1;
      HarmlessRun(e, s, events[..n]);
      ReactHarmless(e, Run(e, s, events[..n]), events[n]);
    }
  }

  /** With the leftover watchdog the commit is not prepared for. */
  lemma LeftoverCommits(e: Env, b: Beginning)
    requires ValidBeginning(b) && Leftover(e, b)
    ensures Begin(e, b).total >= 1
    ensures var t := TimeOut(e, Begin(e, b));
            && Reaches(e, b, [Timeout], t)
            && |t.log| > 3 && t.log[3].UpdaterEnd? && !Ready(e, t.cfg, t.total, t.log[..3])
  {
    StartWithoutUpdater(e, b.previous, b.cfg);
    LeftoverWatchdogFires(e, b);
    var s := Begin(e, b);
    SeenOne(s, Fired);
    FinishEnds(e, Log(s, Fired).(retries := s.retries - 1));
  }

  lemma FinishEnds(e: Env, s: Ota)
    requires s.total >= 1 && e.digest(s.hashed) == s.cfg.checksum && !Seen(s).begun
    ensures var t := FinishUpdate(e, s); var n := |s.log|;
            && |t.log| > n && t.log[..n] == s.log && t.log[n].UpdaterEnd? && !Ready(e, t.cfg, t.total, t.log[..n])
  {
    var next := Log(s, UpdaterEnd(Ask(e, s).ok));
    assert next.log <= FinishUpdate(e, s).log;
  }

  lemma CommitIsSafe(e: Env, b: Beginning, events: seq<Event>, s: Ota, i: nat)
    requires Reaches(e, b, events, s) && NoLatePacketsIn(e, b, events) && !Leftover(e, b)
    requires i < |s.log| && s.log[i].UpdaterEnd?
    ensures Clean(b) && Ready(e, s.cfg, s.total, s.log[..i])
  {
    if Clean(b) {
      CleanBegin(e, b);
      RunCommitsSafely(e, Begin(e, b), events);
      assert CommitSafeAt(e, s.cfg, s.total, s.log, i);
    } else {
      StartWithoutUpdater(e, b.previous, b.cfg);
      HarmlessRun(e, Begin(e, b), events);
      assert false;
    }
  }

  /** Whenever updater->end is called, the image may be committed. */
  ghost predicate AlwaysCommitsSafely(e: Env, b: Beginning) {
    forall events, s {:trigger Reaches(e, b, events, s)} ::
      Reaches(e, b, events, s) && NoLatePacketsIn(e, b, events) ==> CommitSafe(e, s.cfg, s.total, s.log)
  }

  /** In every run without late packets updater->end is only called on the complete image: the accepted
      chunks 0..total-1 in order, all of them hashed, with the expected digest. The one exception is a
      watchdog left over from an update that had as many chunks and the same digest. */
  lemma CommitsAreSafe(e: Env, b: Beginning)
    requires ValidBeginning(b)
    ensures AlwaysCommitsSafely(e, b) <==> !Leftover(e, b)
  {
    if Leftover(e, b) {
      LeftoverCommits(e, b);
      var t := TimeOut(e, Begin(e, b));
      assert [Timeout][..0] == [] && NoLatePacketsIn(e, b, [Timeout]);
      assert !CommitSafeAt(e, t.cfg, t.total, t.log, 3);
    } else {
      forall events, s | Reaches(e, b, events, s) && NoLatePacketsIn(e, b, events)
        ensures CommitSafe(e, s.cfg, s.total, s.log)
      {
        forall i: nat | i < |s.log| ensures CommitSafeAt(e, s.cfg, s.total, s.log, i) {
          if s.log[i].UpdaterEnd? {
            CommitIsSafe(e, b, events, s, i);
          }
        }
      }
    }
  }

  // ---------------------------------------------------------------------------------------
  // End to end
  // ---------------------------------------------------------------------------------------

  /** What a server answers to a request for chunk i. */
  function Slice(image: Bytes, chunkSize: nat, i: nat): Bytes {
    image[Min(i * chunkSize, |image|)..Min((i + 1) * chunkSize, |image|)]
  }

  ghost predicate HonestServer(image: Bytes, chunkSize: nat, log: seq<Entry>) {
    forall i, payload :: Received(i, payload) in log ==> payload == Slice(image, chunkSize, i)
  }

  lemma TakeMore(image: Bytes, lo: nat, hi: nat)
    requires lo <= hi <= |image|
    ensures image[..lo] + image[lo..hi] == image[..hi]
  {
  }

  lemma NextSlice(image: Bytes, chunkSize: nat, n: nat)
    ensures image[..Min(n * chunkSize, |image|)] + Slice(image, chunkSize, n)
            == image[..Min((n + 1) * chunkSize, |image|)]
  {
    assert (n + 1) * chunkSize == n * chunkSize + chunkSize;
    TakeMore(image, Min(n * chunkSize, |image|), Min((n + 1) * chunkSize, |image|));
  }

  lemma {:induction false} SlicesAreImage(parts: seq<Part>, image: Bytes, chunkSize: nat)
    requires forall i :: 0 <= i < |parts| ==> parts[i].data == Slice(image, chunkSize, i)
    ensures Flatten(parts) == image[..Min(|parts| * chunkSize, |image|)]
  {
    if parts != [] {
      var n := |parts| - 1;
      SlicesAreImage(parts[..n], image, chunkSize);
      NextSlice(image, chunkSize, n);
      assert Flatten(parts) == Flatten(parts[..n]) + parts[n].data;
    }
  }

  lemma TotalCoversImage(fwSize: nat, chunkSize: nat)
    requires chunkSize > 0 && fwSize / chunkSize + 1 < SIZE_T_RANGE
    ensures (TotalChunks(fwSize, chunkSize) - 1) * chunkSize <= fwSize
            < TotalChunks(fwSize, chunkSize) * chunkSize
  {
    var q := fwSize / chunkSize;
    assert TotalChunks(fwSize, chunkSize) == q + 1;
    assert fwSize == q * chunkSize + fwSize % chunkSize;
    assert (q + 1) * chunkSize == q * chunkSize + chunkSize;
  }

  /** m_total_chunks wraps to 0 for exactly one configuration: one-byte chunks of the largest
      image. Request_First_Firmware_Packet then finishes at once and, on the wrong digest of
      nothing, calls itself through Handle_Failure with all retries again. */
  lemma TotalIsPositive(cfg: Config)
    requires ValidConfig(cfg)
    ensures TotalChunks(cfg.fwSize, cfg.chunkSize) == 0
            <==> cfg.chunkSize == 1 && cfg.fwSize == SIZE_T_RANGE - 1
    ensures TotalChunks(cfg.fwSize, cfg.chunkSize) != 0
            ==> TotalChunks(cfg.fwSize, cfg.chunkSize) == cfg.fwSize / cfg.chunkSize + 1
  {
    if cfg.chunkSize >= 2 {
      QuotientHalves(cfg.fwSize, cfg.chunkSize);
    }
  }

  lemma QuotientHalves(a: nat, b: nat)
    requires b >= 2
    ensures 2 * (a / b) <= a
  {
    assert a == (a / b) * b + a % b;
    assert (a / b) * b >= (a / b) * 2;
  }

  /** If every packet carries the server's slice for its index, what is committed is the image,
      byte for byte, without relying on the digest. */
  lemma CommitsTheImage(e: Env, b: Beginning, events: seq<Event>, s: Ota, i: nat, image: Bytes)
    requires Reaches(e, b, events, s) && NoLatePacketsIn(e, b, events) && !Leftover(e, b)
    requires |image| == s.cfg.fwSize && HonestServer(image, s.cfg.chunkSize, s.log)
    requires i < |s.log| && s.log[i].UpdaterEnd?
    ensures Observe(s.log[..i]).written == image
  {
    CommitIsSafe(e, b, events, s, i);
    CleanBegin(e, b);
    var o := Observe(s.log[..i]);
    forall k | 0 <= k < |o.parts| ensures o.parts[k].data == Slice(image, s.cfg.chunkSize, k) {
      assert Received(k, o.parts[k].data) in s.log[..i];
      assert Received(k, o.parts[k].data) in s.log;
    }
    SlicesAreImage(o.parts, image, s.cfg.chunkSize);
    assert ValidConfig(s.cfg) && s.total == TotalChunks(s.cfg.fwSize, s.cfg.chunkSize);
    TotalIsPositive(s.cfg);
    TotalCoversImage(s.cfg.fwSize, s.cfg.chunkSize);
  }

  /** The last chunk is empty exactly when the chunk size divides the image size. */
  lemma LastChunkEmpty(image: Bytes, chunkSize: nat)
    requires chunkSize > 0 && |image| / chunkSize + 1 < SIZE_T_RANGE
    ensures Slice(image, chunkSize, TotalChunks(|image|, chunkSize) - 1) == []
            <==> |image| % chunkSize == 0
  {
    TotalCoversImage(|image|, chunkSize);
    var q := |image| / chunkSize;
    assert TotalChunks(|image|, chunkSize) - 1 == q;
    assert |image| == q * chunkSize + |image| % chunkSize;
    LastSlice(image, chunkSize, q);
  }

  lemma LastSlice(image: Bytes, chunkSize: nat, q: nat)
    requires q * chunkSize <= |image| < (q + 1) * chunkSize
    ensures |Slice(image, chunkSize, q)| == |image| - q * chunkSize
  {
  }

  // ---------------------------------------------------------------------------------------
  // Retries
  // ---------------------------------------------------------------------------------------

  /** The log entries of n timeouts that request chunk again. */
  function Requests(n: nat, chunk: nat): seq<Entry> {
    if n == 0 then [] else Requests(n - 1, chunk) + [Fired, Publish(chunk), Arm]
  }

  /** The state after n timeouts in a row. */
  function AfterTimeouts(e: Env, s: Ota, n: nat): (t: Ota)
    requires s.total >= 1
    ensures t.total == s.total && t.cfg == s.cfg
  {
    if n == 0 then s else TimeOut(e, AfterTimeouts(e, s, n - 1))
  }

  /** Every timeout up to the number of retries left requests the same chunk again. */
  lemma {:induction false} TimeoutsRetry(e: Env, s: Ota, n: nat)
    requires Active(e, s) && n <= s.retries
    ensures var t := AfterTimeouts(e, s, n);
            && Active(e, t) && t.requested == s.requested && t.retries == s.retries - n
            && t.log == s.log + Requests(n, s.requested)
  {
    if n > 0 {
      TimeoutsRetry(e, s, n - 1);
      TimeOutGood(e, AfterTimeouts(e, s, n - 1));
    }
  }

  /** The timeout after the last retry ends the update. */
  lemma LastTimeoutEnds(e: Env, s: Ota)
    requires Active(e, s)
    ensures var t := AfterTimeouts(e, s, s.retries + 1);
            && Over(e, t)
            && t.log == s.log + Requests(s.retries, s.requested)
                        + [Fired, EndCallback(false), FinishCallback]
  {
    TimeoutsRetry(e, s, s.retries);
    TimeOutGood(e, AfterTimeouts(e, s, s.retries));
  }

  /** An accepted chunk and a restart give all retries back. */
  lemma RetriesAreRefilled(e: Env, s: Ota, chunk: nat, payload: Bytes)
    requires Active(e, s) && chunk == s.requested
    ensures var t := Process(e, s, chunk, payload);
            Over(e, t) || (Active(e, t) && t.retries == s.cfg.chunkRetries
                           && (t.requested == s.requested + 1 || t.requested == 0))
  {
    ProcessGood(e, s, chunk, payload);
  }

  /** A packet of another index is ignored. */
  predicate Ignored(s: Ota, event: Event) {
    event.Packet? && event.chunk != s.requested
  }

  /** The lexicographic measure (chunks left, retries left) as one number. */
  function Budget(s: Ota): nat
    requires s.requested <= s.total
  {
    (s.total - s.requested) * (s.cfg.chunkRetries + 1) + s.retries
  }

  /** An event ends the update, restarts it, is ignored, or spends budget. */
  predicate Spends(e: Env, s: Ota, event: Event, t: Ota)
    requires s.requested <= s.total
  {
    || Over(e, t)
    || (Active(e, t) && Seen(t).restarts > Seen(s).restarts)
    || (Active(e, t) && Seen(t).restarts == Seen(s).restarts
        && (if Ignored(s, event) then Budget(t) == Budget(s) else Budget(t) < Budget(s)))
  }

  lemma AcceptedChunkSpends(s: Ota, t: Ota)
    requires t.requested == s.requested + 1 <= s.total == t.total
    requires t.cfg == s.cfg && t.retries == s.cfg.chunkRetries
    ensures Budget(t) < Budget(s)
  {
    var left, cost := s.total - s.requested, s.cfg.chunkRetries + 1;
    assert left * cost == (left - 1) * cost + cost;
  }

  lemma PacketSpendsBudget(e: Env, s: Ota, chunk: nat, payload: Bytes)
    requires Active(e, s)
    ensures Spends(e, s, Packet(chunk, payload), Process(e, s, chunk, payload))
  {
    ProcessGood(e, s, chunk, payload);
    var t := Process(e, s, chunk, payload);
    if Active(e, t) && t.requested == s.requested + 1 && t.retries == s.cfg.chunkRetries {
      AcceptedChunkSpends(s, t);
    }
  }

  lemma ReactSpendsBudget(e: Env, s: Ota, event: Event)
    requires Active(e, s)
    ensures Spends(e, s, event, React(e, s, event))
  {
    match event
    case Packet(chunk, payload) => PacketSpendsBudget(e, s, chunk, payload);
    case Timeout => TimeOutGood(e, s);
    case Abort => StopGood(e, s);
  }

  /** Events that are not ignored. */
  function Effective(e: Env, s: Ota, events: seq<Event>): nat
    requires s.total >= 1
    decreases |events|
  {
    if events == [] then 0
    else
      var n := |events| - 1;
      Effective(e, s, events[..n]) + (if Ignored(Run(e, s, events[..n]), events[n]) then 0 else 1)
  }

  lemma {:induction false} RestartsOnlyGrow(log: seq<Entry>, k: nat)
    requires k <= |log|
    ensures Observe(log[..k]).restarts <= Observe(log).restarts
    decreases |log|
  {
    if k < |log| {
      var shorter := log[..|log| - 1];
      assert shorter[..k] == log[..k];
      RestartsOnlyGrow(shorter, k);
    } else {
      assert log[..k] == log;
    }
  }

  /** Restarts are neither taken back by the next event nor by the events of a run. */
  lemma RestartsInRun(e: Env, s: Ota, events: seq<Event>)
    requires s.total >= 1 && events != []
    ensures var before := Run(e, s, events[..|events| - 1]);
            Seen(s).restarts <= Seen(before).restarts <= Seen(Run(e, s, events)).restarts
  {
    var before, t := Run(e, s, events[..|events| - 1]), Run(e, s, events);
    assert before.log == t.log[..|before.log|];
    RestartsOnlyGrow(t.log, |before.log|);
    assert s.log == before.log[..|s.log|];
    RestartsOnlyGrow(before.log, |s.log|);
  }

  /** What n effective events have left of a budget. */
  predicate Within(e: Env, t: Ota, n: nat, budget: nat) {
    if Active(e, t) then n + Budget(t) <= budget else Over(e, t) && n <= budget + 1
  }

  lemma OneMoreWithin(e: Env, s: Ota, event: Event, n: nat, budget: nat)
    requires Within(e, s, n, budget) && Possible(s, event) && !LatePacket(s, event) && !LateAbort(s, event)
    requires Seen(React(e, s, event)).restarts == Seen(s).restarts
    ensures Within(e, React(e, s, event), n + (if Ignored(s, event) then 0 else 1), budget)
  {
    if Active(e, s) {
      ReactSpendsBudget(e, s, event);
    } else {
      ReactGood(e, s, event);
      LogEnded(s, Received(event.chunk, event.payload));
    }
  }

  /** A run without restarts handles a bounded number of events besides ignored ones. */
  lemma {:induction false} RestartFreeRunIsBounded(e: Env, s: Ota, events: seq<Event>)
    requires Active(e, s) && AllPossible(e, s, events)
    requires NoLatePackets(e, s, events) && NoLateAborts(e, s, events)
    requires Seen(Run(e, s, events)).restarts == Seen(s).restarts
    ensures Within(e, Run(e, s, events), Effective(e, s, events), Budget(s))
    decreases |events|
  {
    if events != [] {
      var n := |events| - 1;
      RestartsInRun(e, s, events);
      RestartFreeRunIsBounded(e, s, events[..n]);
      OneMoreWithin(e, Run(e, s, events[..n]), events[n], Effective(e, s, events[..n]), Budget(s));
    }
  }

  // ---------------------------------------------------------------------------------------
  // Restarts
  // ---------------------------------------------------------------------------------------

  /** Without chunk retries nothing is ever restarted. */
  lemma NoRetriesNoRestart(e: Env, s: Ota, event: Event)
    requires Active(e, s) && Possible(s, event) && s.cfg.chunkRetries == 0
    ensures Over(e, React(e, s, event)) || Seen(React(e, s, event)).restarts == Seen(s).restarts
  {
    match event
    case Packet(chunk, payload) =>
      ProcessGood(e, s, chunk, payload);
      SeenLog();
    case Timeout => TimeOutGood(e, s);
    case Abort => StopGood(e, s);
  }

  /** An updater whose begin always fails. */
  function Failing(digest: Bytes -> string): Env {
    Env(_ => Reply(false, 0, false), digest)
  }

  lemma FailingBeginRestarts(digest: Bytes -> string, s: Ota)
    requires Active(Failing(digest), s) && s.requested == 0 && s.retries == s.cfg.chunkRetries > 0
    ensures var t := Process(Failing(digest), s, 0, []);
            && Active(Failing(digest), t) && t.requested == 0 && t.retries == s.cfg.chunkRetries
            && Seen(t).restarts > Seen(s).restarts
  {
    var e := Failing(digest);
    SeenLog();
    LogsKeepCommitSafe(e);
    var s1 := Log(Log(s, Received(0, [])), Detach);
    RetryUpdateGood(e, Log(s1, UpdaterBegin(s.cfg.fwSize, false)));
  }

  /** The state after n first chunks, each answering the request after a restart. */
  function AfterFirstChunks(e: Env, s: Ota, n: nat): (t: Ota)
    requires s.total >= 1
    ensures t.total == s.total && t.cfg == s.cfg
  {
    if n == 0 then s else Process(e, AfterFirstChunks(e, s, n - 1), 0, [])
  }

  /** With at least one retry the number of restarts has no bound: each of them refills the
      retries that should run out. */
  lemma {:induction false} RestartsAreUnbounded(digest: Bytes -> string, s: Ota, n: nat)
    requires Active(Failing(digest), s) && s.requested == 0 && s.retries == s.cfg.chunkRetries > 0
    ensures var t := AfterFirstChunks(Failing(digest), s, n);
            && Active(Failing(digest), t) && t.requested == 0 && t.retries == s.cfg.chunkRetries
            && Seen(t).restarts >= Seen(s).restarts + n
  {
    if n > 0 {
      RestartsAreUnbounded(digest, s, n - 1);
      FailingBeginRestarts(digest, AfterFirstChunks(Failing(digest), s, n - 1));
    }
  }
}
