/** What the firmware update guarantees, stated on the log alone. */
module OtaProperties {
  import opened OtaSpec

  // ---------------------------------------------------------------------------------------
  // An observer that only sees the log
  // ---------------------------------------------------------------------------------------

  /** A chunk and its data. */
  datatype Part = Part(index: nat, data: Bytes)

  datatype Observer = Observer(
    begun: bool,              // updater->begin succeeded since the last reset
    written: Bytes,           // what the updater has stored since then
    hashed: Bytes,            // what the hash has consumed since its last start
    current: Part,            // the packet being processed
    parts: seq<Part>,         // chunks stored and hashed since the last reset
    outstanding: seq<nat>,    // the chunk whose request is neither answered nor timed out
    ends: seq<bool>,          // the end callbacks so far
    finishes: nat,
    commits: nat,             // successful updater->end calls
    restarts: nat,
    crashed: bool)            // the null callback was called

  const NOTHING := Observer(false, [], [], Part(0, []), [], [], [], 0, 0, 0, false)

  function Prefix(data: Bytes, n: nat): Bytes {
    if n < |data| then data[..n] else data
  }

  function See(o: Observer, entry: Entry): Observer {
    match entry
    case Received(chunk, payload) => o.(current := Part(chunk, payload))
    case Fired => o.(outstanding := [])
    case Publish(chunk) => o.(outstanding := [chunk])
    case Arm => o
    case Detach => o.(outstanding := [])
    case HashStart => o.(hashed := [], restarts := o.restarts + 1)
    case HashUpdate(data, ok) =>
      if ok then o.(hashed := o.hashed + data, parts := o.parts + [Part(o.current.index, data)]) else o
    case UpdaterReset => o.(begun := false, written := [], parts := [])
    case UpdaterBegin(_, ok) => o.(begun := ok, written := [], parts := [])
    case UpdaterWrite(data, n) => o.(written := o.written + Prefix(data, n))
    case UpdaterEnd(ok) => if ok then o.(commits := o.commits + 1) else o
    case Progress(_, _) => o
    case EndCallback(success) => o.(ends := o.ends + [success])
    case FinishCallback => o.(finishes := o.finishes + 1)
    case NullCall => o.(crashed := true)
  }

  function Observe(log: seq<Entry>): Observer {
    if log == [] then NOTHING else See(Observe(log[..|log| - 1]), log[|log| - 1])
  }

  function Seen(s: Ota): Observer {
    Observe(s.log)
  }

  lemma SeenLog()
    ensures forall s: Ota, entry: Entry {:trigger Seen(Log(s, entry))} :: Seen(Log(s, entry)) == See(Seen(s), entry)
  {
    forall s: Ota, entry: Entry ensures Seen(Log(s, entry)) == See(Seen(s), entry) {
      assert (s.log + [entry])[..|s.log|] == s.log;
    }
  }

  lemma SeenOne(s: Ota, entry: Entry)
    ensures Seen(Log(s, entry)) == See(Seen(s), entry)
  {
    assert (s.log + [entry])[..|s.log|] == s.log;
  }

  function Flatten(parts: seq<Part>): Bytes {
    if parts == [] then [] else Flatten(parts[..|parts| - 1]) + parts[|parts| - 1].data
  }

  /** Chunks 0, 1, 2, ... in order, each as it was received. */
  predicate InOrder(parts: seq<Part>, log: seq<Entry>) {
    forall i :: 0 <= i < |parts| ==> parts[i].index == i && Received(i, parts[i].data) in log
  }

  /** The image may be committed: the updater holds exactly the accepted chunks 0..total-1 in
      order, the hash has consumed the same bytes, and its digest is the expected one. */
  predicate Ready(e: Env, cfg: Config, total: nat, log: seq<Entry>) {
    var o := Observe(log);
    && o.begun
    && |o.parts| == total && InOrder(o.parts, log)
    && o.written == Flatten(o.parts) && o.hashed == o.written
    && e.digest(o.hashed) == cfg.checksum
  }

  /** If updater->end is entry i of the log, the image may be committed there. */
  predicate CommitSafeAt(e: Env, cfg: Config, total: nat, log: seq<Entry>, i: nat)
    requires i < |log|
  {
    log[i].UpdaterEnd? ==> Ready(e, cfg, total, log[..i])
  }

  /** Whenever updater->end is called, the image may be committed. */
  predicate CommitSafe(e: Env, cfg: Config, total: nat, log: seq<Entry>) {
    forall i: nat {:trigger CommitSafeAt(e, cfg, total, log, i)} ::
      i < |log| ==> CommitSafeAt(e, cfg, total, log, i)
  }

  lemma LogKeepsCommitSafe(e: Env, s: Ota, entry: Entry)
    requires CommitSafe(e, s.cfg, s.total, s.log)
    requires entry.UpdaterEnd? ==> Ready(e, s.cfg, s.total, s.log)
    ensures CommitSafe(e, s.cfg, s.total, Log(s, entry).log)
  {
    var t := Log(s, entry);
    forall i: nat | i < |t.log| ensures CommitSafeAt(e, t.cfg, t.total, t.log, i) {
      if i < |s.log| {
        assert CommitSafeAt(e, s.cfg, s.total, s.log, i);
        assert t.log[..i] == s.log[..i];
      } else {
        assert t.log[..i] == s.log;
      }
    }
  }

  /** Harmless entries. */
  lemma LogsKeepCommitSafe(e: Env)
    ensures forall s: Ota, entry: Entry {:trigger Log(s, entry)} ::
              CommitSafe(e, s.cfg, s.total, s.log) && !entry.UpdaterEnd?
              ==> CommitSafe(e, s.cfg, s.total, Log(s, entry).log)
  {
    forall s: Ota, entry: Entry | CommitSafe(e, s.cfg, s.total, s.log) && !entry.UpdaterEnd?
      ensures CommitSafe(e, s.cfg, s.total, Log(s, entry).log)
    {
      LogKeepsCommitSafe(e, s, entry);
    }
  }

  // ---------------------------------------------------------------------------------------
  // The invariant at the boundaries between events
  // ---------------------------------------------------------------------------------------

  /** Stored bytes, hashed bytes and accepted chunks agree. */
  predicate Synced(s: Ota) {
    var o := Seen(s);
    && o.hashed == s.hashed && o.written == s.hashed && Flatten(o.parts) == s.hashed
    && |o.parts| == s.requested && InOrder(o.parts, s.log)
    && (s.requested > 0 ==> o.begun)
  }

  predicate Running(e: Env, s: Ota) {
    var o := Seen(s);
    && s.total >= 1 && s.callbackSet && s.retries <= s.cfg.chunkRetries
    && o.ends == [] && o.finishes == 0 && o.commits == 0 && !o.crashed
    && CommitSafe(e, s.cfg, s.total, s.log)
  }

  /** No request is outstanding. */
  predicate Quiet(s: Ota) {
    !s.armed && Seen(s).outstanding == []
  }

  /** The update goes on: the next chunk is requested and the watchdog runs. */
  predicate Active(e: Env, s: Ota) {
    && Running(e, s) && Synced(s)
    && s.requested < s.total
    && Seen(s).outstanding == [s.requested] && s.armed
  }

  /** The update is over: told once, and committed exactly when it was told to be a success. */
  predicate Over(e: Env, s: Ota) {
    var o := Seen(s);
    && CommitSafe(e, s.cfg, s.total, s.log) && s.total >= 1
    && |o.ends| == 1 && o.finishes == 1 && !s.armed && !o.crashed
    && o.commits == (if o.ends[0] then 1 else 0)
  }

  predicate Good(e: Env, s: Ota) {
    Active(e, s) || Over(e, s)
  }

  lemma EndUpdateGood(e: Env, s: Ota)
    requires Running(e, s) && Quiet(s)
    ensures Over(e, EndUpdate(s, false))
  {
    SeenLog();
    LogsKeepCommitSafe(e);
  }

  /** The update was started again from the first chunk, with all retries. */
  predicate Restarted(e: Env, s: Ota, t: Ota) {
    Active(e, t) && t.requested == 0 && t.retries == s.cfg.chunkRetries
    && Seen(t).restarts > Seen(s).restarts
  }

  predicate RestartedOrOver(e: Env, s: Ota, t: Ota) {
    (s.cfg.chunkRetries > 0 && Restarted(e, s, t)) || Over(e, t)
  }

  /** The state in which the first chunk is requested. */
  function ResetBase(s: Ota): Ota {
    Log(Log(Log(s.(requested := 0, retries := s.cfg.chunkRetries, hashed := []), HashStart), Detach), UpdaterReset)
  }

  lemma ResetGood(e: Env, s: Ota)
    requires Running(e, s)
    ensures var t := ResetBase(s);
            Running(e, t) && Quiet(t) && Synced(t) && Seen(t).restarts == Seen(s).restarts + 1
  {
    var first := s.(requested := 0, retries := s.cfg.chunkRetries, hashed := []);
    assert Seen(first) == Seen(s);
    var s1 := Log(first, HashStart);
    SeenOne(first, HashStart);
    LogKeepsCommitSafe(e, first, HashStart);
    var s2 := Log(s1, Detach);
    SeenOne(s1, Detach);
    LogKeepsCommitSafe(e, s1, Detach);
    SeenOne(s2, UpdaterReset);
    LogKeepsCommitSafe(e, s2, UpdaterReset);
  }

  lemma ChunkRequestGood(e: Env, s: Ota)
    requires Running(e, s) && Quiet(s) && Synced(s) && s.requested < s.total
    ensures var t := RequestNext(e, s);
            Active(e, t) && t == s.(log := s.log + [Publish(s.requested), Arm], armed := true)
            && Seen(t).restarts == Seen(s).restarts
  {
    var asked := Log(s, Publish(s.requested));
    SeenOne(s, Publish(s.requested));
    LogKeepsCommitSafe(e, s, Publish(s.requested));
    SeenOne(asked, Arm);
    LogKeepsCommitSafe(e, asked, Arm);
    assert s.log + [Publish(s.requested), Arm] == asked.log + [Arm];
  }

  lemma RequestFirstGood(e: Env, s: Ota)
    requires Running(e, s)
    ensures Restarted(e, s, RequestFirst(e, s))
  {
    ResetGood(e, s);
    ChunkRequestGood(e, ResetBase(s));
    assert RequestFirst(e, s) == RequestNext(e, ResetBase(s));
  }

  lemma RetryUpdateGood(e: Env, s: Ota)
    requires Running(e, s) && Quiet(s)
    ensures RestartedOrOver(e, s, HandleFailure(e, s, RetryUpdate))
    ensures s.retries == 0 <==> Over(e, HandleFailure(e, s, RetryUpdate))
  {
    if s.retries == 0 {
      EndUpdateGood(e, s);
    } else {
      var s1 := s.(retries := s.retries - 1);
      assert Seen(s1) == Seen(s);
      RequestFirstGood(e, s1);
    }
  }

  lemma RetryNothingGood(e: Env, s: Ota)
    requires Running(e, s) && Quiet(s)
    ensures Over(e, HandleFailure(e, s, RetryNothing))
  {
    EndUpdateGood(e, s.(retries := if s.retries == 0 then 0 else s.retries - 1));
  }

  lemma CommitGood(e: Env, s: Ota, ok: bool)
    requires Running(e, s) && Quiet(s) && Synced(s) && s.requested == s.total
    requires e.digest(s.hashed) == s.cfg.checksum
    ensures var s1 := Log(s, UpdaterEnd(ok));
            if ok then Over(e, EndUpdate(s1, true)) else Running(e, s1) && Quiet(s1)
  {
    SeenLog();
    LogKeepsCommitSafe(e, s, UpdaterEnd(ok));
    if ok {
      LogsKeepCommitSafe(e);
    }
  }

  lemma FinishIs(e: Env, s: Ota)
    requires s.total >= 1
    ensures var ok := Ask(e, s).ok;
            FinishUpdate(e, s)
            == if e.digest(s.hashed) != s.cfg.checksum then HandleFailure(e, s, RetryUpdate)
               else if !ok then HandleFailure(e, Log(s, UpdaterEnd(ok)), RetryUpdate)
               else EndUpdate(Log(s, UpdaterEnd(ok)), true)
  {
  }

  lemma FailedCommitGood(e: Env, s: Ota)
    requires Running(e, Log(s, UpdaterEnd(false))) && Quiet(Log(s, UpdaterEnd(false)))
    ensures RestartedOrOver(e, s, HandleFailure(e, Log(s, UpdaterEnd(false)), RetryUpdate))
  {
    SeenOne(s, UpdaterEnd(false));
    RetryUpdateGood(e, Log(s, UpdaterEnd(false)));
  }

  lemma FinishUpdateGood(e: Env, s: Ota)
    requires Running(e, s) && Quiet(s) && Synced(s) && s.requested == s.total
    ensures RestartedOrOver(e, s, FinishUpdate(e, s))
  {
    FinishIs(e, s);
    if e.digest(s.hashed) != s.cfg.checksum {
      RetryUpdateGood(e, s);
    } else {
      CommitGood(e, s, Ask(e, s).ok);
      if !Ask(e, s).ok {
        FailedCommitGood(e, s);
      }
    }
  }

  /** The next chunk is requested, or after the last one the update is finished. */
  lemma RequestNextGood(e: Env, s: Ota)
    requires Running(e, s) && Quiet(s) && Synced(s) && s.requested <= s.total
    ensures var t := RequestNext(e, s);
            if s.requested < s.total then
              Active(e, t) && t == s.(log := s.log + [Publish(s.requested), Arm], armed := true)
              && Seen(t).restarts == Seen(s).restarts
            else
              RestartedOrOver(e, s, t)
  {
    if s.requested < s.total {
      ChunkRequestGood(e, s);
    } else {
      FinishUpdateGood(e, s);
    }
  }

  lemma StopGood(e: Env, s: Ota)
    requires Running(e, s)
    ensures Over(e, Stop(e, s))
  {
    SeenLog();
    LogsKeepCommitSafe(e);
    RetryNothingGood(e, Log(Log(s, Detach), UpdaterReset));
  }

  /** What an event can do: lead to the next chunk, restart the update, end it. */
  predicate Accepted(e: Env, s: Ota, t: Ota) {
    || (Active(e, t) && t.requested == s.requested + 1 && t.retries == s.cfg.chunkRetries
        && Seen(t).restarts == Seen(s).restarts)
    || RestartedOrOver(e, s, t)
  }

  /** A chunk that was stored and hashed, before the handler counts it. */
  predicate Stored(s: Ota, payload: Bytes) {
    var o := Seen(s);
    && o.hashed == s.hashed + payload && o.written == o.hashed && Flatten(o.parts) == o.hashed
    && |o.parts| == s.requested + 1 && InOrder(o.parts, s.log) && o.begun
  }

  /** Storing and hashing a chunk keeps the two in step. */
  lemma StoredSynced(e: Env, s: Ota, payload: Bytes)
    requires Running(e, s) && Quiet(s) && Synced(s)
    requires Seen(s).begun && Seen(s).current == Part(s.requested, payload)
    requires Received(s.requested, payload) in s.log
    ensures var s2 := Log(Log(s, UpdaterWrite(payload, |payload|)), HashUpdate(payload, true));
            Running(e, s2) && Quiet(s2) && Stored(s2, payload) && Seen(s2).restarts == Seen(s).restarts
  {
    SeenLog();
    LogsKeepCommitSafe(e);
    var s2 := Log(Log(s, UpdaterWrite(payload, |payload|)), HashUpdate(payload, true));
    assert Seen(s2).parts == Seen(s).parts + [Part(s.requested, payload)];
    assert Seen(s2).parts[..|Seen(s2).parts| - 1] == Seen(s).parts;
  }

  /** Entries that end neither the update nor a request. */
  predicate Internal(entry: Entry) {
    entry.UpdaterWrite? || (entry.HashUpdate? && !entry.hashOk) || entry.Fired? || entry.Progress?
    || (entry.UpdaterEnd? && !entry.endOk)
  }

  lemma LogKeepsRunning(e: Env, s: Ota, entry: Entry)
    requires Running(e, s) && Quiet(s) && Internal(entry)
    requires entry.UpdaterEnd? ==> Ready(e, s.cfg, s.total, s.log)
    ensures Running(e, Log(s, entry)) && Quiet(Log(s, entry))
    ensures Seen(Log(s, entry)).restarts == Seen(s).restarts
  {
    SeenLog();
    LogKeepsCommitSafe(e, s, entry);
  }

  /** The state in which the handler asks for the next chunk. */
  function Counted(s: Ota, payload: Bytes): Ota {
    var stored := s.(hashed := s.hashed + payload, requested := s.requested + 1);
    Log(stored, Progress(stored.requested, s.total))
  }

  lemma AcceptIs(e: Env, s: Ota, payload: Bytes)
    requires s.total >= 1
    ensures Accept(e, s, payload)
            == if !s.callbackSet then
                 Log(s.(hashed := s.hashed + payload, requested := s.requested + 1), NullCall)
               else if Ask(e, s).abort then Stop(e, Counted(s, payload))
               else RequestNext(e, Counted(s, payload).(retries := s.cfg.chunkRetries))
  {
  }

  lemma StoreIs(e: Env, s: Ota, payload: Bytes)
    requires s.total >= 1
    ensures var s1 := Log(s, UpdaterWrite(payload, Ask(e, s).written));
            var s2 := Log(s1, HashUpdate(payload, Ask(e, s1).ok));
            Store(e, s, payload)
            == if Ask(e, s).written != |payload| then HandleFailure(e, s1, RetryUpdate)
               else if !Ask(e, s1).ok then HandleFailure(e, s2, RetryUpdate)
               else Accept(e, s2, payload)
  {
  }

  lemma CountedSynced(e: Env, s: Ota, payload: Bytes)
    requires Running(e, s) && Quiet(s) && Stored(s, payload)
    ensures var t := Counted(s, payload);
            Running(e, t) && Quiet(t) && Synced(t) && Seen(t).restarts == Seen(s).restarts
  {
    var stored := s.(hashed := s.hashed + payload, requested := s.requested + 1);
    assert Seen(stored) == Seen(s);
    LogKeepsRunning(e, stored, Progress(stored.requested, s.total));
    SeenLog();
  }

  lemma AcceptGood(e: Env, s: Ota, payload: Bytes)
    requires Running(e, s) && Quiet(s) && Stored(s, payload) && s.requested < s.total
    ensures Accepted(e, s, Accept(e, s, payload))
  {
    AcceptIs(e, s, payload);
    CountedSynced(e, s, payload);
    var t := Counted(s, payload);
    if Ask(e, s).abort {
      StopGood(e, t);
    } else {
      var next := t.(retries := s.cfg.chunkRetries);
      assert Seen(next) == Seen(t);
      RequestNextGood(e, next);
    }
  }

  lemma StoreGood(e: Env, s: Ota, payload: Bytes)
    requires Running(e, s) && Quiet(s) && Synced(s) && s.requested < s.total
    requires Seen(s).begun && Seen(s).current == Part(s.requested, payload)
    requires Received(s.requested, payload) in s.log
    ensures Accepted(e, s, Store(e, s, payload))
  {
    StoreIs(e, s, payload);
    var s1 := Log(s, UpdaterWrite(payload, Ask(e, s).written));
    LogKeepsRunning(e, s, UpdaterWrite(payload, Ask(e, s).written));
    if Ask(e, s).written != |payload| {
      RetryUpdateGood(e, s1);
    } else if !Ask(e, s1).ok {
      LogKeepsRunning(e, s1, HashUpdate(payload, false));
      RetryUpdateGood(e, Log(s1, HashUpdate(payload, false)));
    } else {
      StoredSynced(e, s, payload);
      AcceptGood(e, Log(s1, HashUpdate(payload, true)), payload);
    }
  }

  lemma IgnoredGood(e: Env, s: Ota, chunk: nat, payload: Bytes)
    requires Active(e, s)
    ensures var t := Log(s, Received(chunk, payload));
            Active(e, t) && Seen(t) == Seen(s).(current := Part(chunk, payload))
  {
    SeenOne(s, Received(chunk, payload));
    LogKeepsCommitSafe(e, s, Received(chunk, payload));
  }

  /** A packet that is taken, before anything is done with it. */
  function Taken(s: Ota, payload: Bytes): Ota {
    Log(Log(s, Received(s.requested, payload)), Detach)
  }

  lemma TakenGood(e: Env, s: Ota, payload: Bytes)
    requires Active(e, s)
    ensures var t := Taken(s, payload);
            && Running(e, t) && Quiet(t) && Synced(t) && Seen(t).restarts == Seen(s).restarts
            && Seen(t).current == Part(s.requested, payload) && Received(s.requested, payload) in t.log
  {
    var s0 := Log(s, Received(s.requested, payload));
    IgnoredGood(e, s, s.requested, payload);
    assert s0.log[|s.log|] == Received(s.requested, payload);
    SeenOne(s0, Detach);
    LogKeepsCommitSafe(e, s0, Detach);
  }

  lemma BegunGood(e: Env, s: Ota, ok: bool)
    requires Running(e, s) && Quiet(s) && Synced(s) && s.requested == 0
    ensures var t := Log(s, UpdaterBegin(s.cfg.fwSize, ok));
            && Running(e, t) && Quiet(t) && Seen(t).restarts == Seen(s).restarts && Seen(t).current == Seen(s).current
            && (ok ==> Synced(t) && Seen(t).begun)
  {
    SeenOne(s, UpdaterBegin(s.cfg.fwSize, ok));
    LogKeepsCommitSafe(e, s, UpdaterBegin(s.cfg.fwSize, ok));
  }

  lemma ProcessIs(e: Env, s: Ota, payload: Bytes)
    requires s.total >= 1
    ensures var t := Taken(s, payload);
            var begun := Log(t, UpdaterBegin(s.cfg.fwSize, Ask(e, t).ok));
            Process(e, s, s.requested, payload)
            == if s.requested != 0 then Store(e, t, payload)
               else if Ask(e, t).ok then Store(e, begun, payload)
               else HandleFailure(e, begun, RetryUpdate)
  {
  }

  lemma TakenProcessGood(e: Env, s: Ota, payload: Bytes)
    requires Active(e, s)
    ensures Accepted(e, s, Process(e, s, s.requested, payload))
  {
    ProcessIs(e, s, payload);
    TakenGood(e, s, payload);
    var t := Taken(s, payload);
    if s.requested == 0 {
      BegunGood(e, t, Ask(e, t).ok);
      var begun := Log(t, UpdaterBegin(s.cfg.fwSize, Ask(e, t).ok));
      if Ask(e, t).ok {
        StoreGood(e, begun, payload);
      } else {
        RetryUpdateGood(e, begun);
      }
    } else {
      StoreGood(e, t, payload);
    }
  }

  lemma ProcessGood(e: Env, s: Ota, chunk: nat, payload: Bytes)
    requires Active(e, s)
    ensures var t := Process(e, s, chunk, payload);
            if chunk == s.requested then Accepted(e, s, t)
            else Active(e, t) && t == Log(s, Received(chunk, payload))
                 && Seen(t).restarts == Seen(s).restarts
  {
    if chunk == s.requested {
      TakenProcessGood(e, s, payload);
    } else {
      IgnoredGood(e, s, chunk, payload);
    }
  }

  /** With retries left the same chunk is requested once more; without, the update ends. */
  lemma TimeOutGood(e: Env, s: Ota)
    requires Active(e, s)
    ensures var t := TimeOut(e, s);
            if s.retries > 0 then
              Active(e, t) && t.requested == s.requested && t.retries == s.retries - 1
              && t.log == s.log + [Fired, Publish(s.requested), Arm]
              && Seen(t).restarts == Seen(s).restarts
            else
              Over(e, t) && t.log == s.log + [Fired, EndCallback(false), FinishCallback]
  {
    var s1 := Log(s, Fired);
    FiredGood(e, s);
    if s.retries > 0 {
      var s2 := s1.(retries := s.retries - 1);
      assert Seen(s2) == Seen(s1);
      RequestNextGood(e, s2);
      assert s1.log + [Publish(s.requested), Arm] == s.log + [Fired, Publish(s.requested), Arm];
    } else {
      EndUpdateGood(e, s1);
    }
  }

  lemma FiredGood(e: Env, s: Ota)
    requires Active(e, s)
    ensures Running(e, Log(s, Fired)) && Quiet(Log(s, Fired)) && Synced(Log(s, Fired))
    ensures Seen(Log(s, Fired)).restarts == Seen(s).restarts
  {
    SeenLog();
    LogKeepsCommitSafe(e, s, Fired);
  }

  /** The watchdog of the previous update cannot outlive this start. */
  predicate CleanStart(previous: Ota, updaterPresent: bool) {
    updaterPresent || !previous.armed
  }

  lemma StartGood(e: Env, previous: Ota, cfg: Config, updaterPresent: bool)
    requires ValidConfig(cfg) && TotalChunks(cfg.fwSize, cfg.chunkSize) >= 1
    requires CleanStart(previous, updaterPresent)
    ensures var s := Start(e, previous, cfg, updaterPresent);
            && s.cfg == cfg && s.total == TotalChunks(cfg.fwSize, cfg.chunkSize)
            && (if updaterPresent then Active(e, s) && s.requested == 0 && s.retries == cfg.chunkRetries
                else Over(e, s))
  {
    var s := previous.(cfg := cfg, callbackSet := true, log := [],
                       total := TotalChunks(cfg.fwSize, cfg.chunkSize), retries := 0);
    if updaterPresent {
      RequestFirstGood(e, s);
    } else {
      EndUpdateGood(e, s);
    }
  }

  lemma SeenEndUpdate(s: Ota, success: bool)
    ensures var o := Seen(s);
            Seen(EndUpdate(s, success))
            == if s.callbackSet then o.(ends := o.ends + [success], finishes := o.finishes + 1)
               else o.(crashed := true)
  {
    if s.callbackSet {
      SeenOne(s, EndCallback(success));
      SeenOne(Log(s, EndCallback(success)), FinishCallback);
    } else {
      SeenOne(s, NullCall);
    }
  }

  /** Without an updater the update ends at once, and the watchdog is as it was. */
  lemma StartWithoutUpdater(e: Env, previous: Ota, cfg: Config)
    requires ValidConfig(cfg) && TotalChunks(cfg.fwSize, cfg.chunkSize) >= 1
    ensures var s := Start(e, previous, cfg, false);
            && s.log == [EndCallback(false), FinishCallback] && s.armed == previous.armed
            && s.cfg == cfg && s.total == TotalChunks(cfg.fwSize, cfg.chunkSize) && s.callbackSet
            && s.requested == previous.requested && s.hashed == previous.hashed
            && s.retries == (if previous.retries == 0 then 0 else previous.retries - 1)
            && Seen(s).ends == [false] && Seen(s).finishes == 1 && Seen(s).outstanding == [] && !Seen(s).begun
            && !Seen(s).crashed
  {
    var base := previous.(cfg := cfg, callbackSet := true, log := [],
                          total := TotalChunks(cfg.fwSize, cfg.chunkSize),
                          retries := if previous.retries == 0 then 0 else previous.retries - 1);
    assert Start(e, previous, cfg, false) == EndUpdate(base, false);
    SeenEndUpdate(base, false);
    assert Seen(base) == NOTHING;
  }

  // ---------------------------------------------------------------------------------------
  // Runs
  // ---------------------------------------------------------------------------------------

  /** Packets of any index and content, and aborts, come at any time, the timeout whenever the watchdog
      is running; nothing is known after a call through the null callback. */
  predicate Possible(s: Ota, event: Event) {
    !Seen(s).crashed && (event.Timeout? ==> s.armed)
  }

  function Run(e: Env, s: Ota, events: seq<Event>): (t: Ota)
    requires s.total >= 1
    ensures t.cfg == s.cfg && t.total == s.total && s.log <= t.log
    decreases |events|
  {
    if events == [] then s else React(e, Run(e, s, events[..|events| - 1]), events[|events| - 1])
  }

  predicate AllPossible(e: Env, s: Ota, events: seq<Event>)
    requires s.total >= 1
    decreases |events|
  {
    events != [] ==>
      var n := |events| - 1;
      AllPossible(e, s, events[..n]) && Possible(Run(e, s, events[..n]), events[n])
  }

  predicate Ended(s: Ota) {
    Seen(s).ends != []
  }

  /** A packet that is not ignored although the update has ended. */
  predicate LatePacket(s: Ota, event: Event) {
    Ended(s) && event.Packet? && event.chunk == s.requested
  }

  /** An abort of an update that has ended. */
  predicate LateAbort(s: Ota, event: Event) {
    Ended(s) && event.Abort?
  }

  predicate NoLatePackets(e: Env, s: Ota, events: seq<Event>)
    requires s.total >= 1
    decreases |events|
  {
    events != [] ==>
      var n := |events| - 1;
      NoLatePackets(e, s, events[..n]) && !LatePacket(Run(e, s, events[..n]), events[n])
  }

  predicate NoLateAborts(e: Env, s: Ota, events: seq<Event>)
    requires s.total >= 1
    decreases |events|
  {
    events != [] ==>
      var n := |events| - 1;
      NoLateAborts(e, s, events[..n]) && !LateAbort(Run(e, s, events[..n]), events[n])
  }

  lemma ReactGood(e: Env, s: Ota, event: Event)
    requires Good(e, s) && Possible(s, event) && !LatePacket(s, event) && !LateAbort(s, event)
    ensures Good(e, React(e, s, event))
  {
    if Over(e, s) {
      LogKeepsCommitSafe(e, s, Received(event.chunk, event.payload));
      SeenLog();
    } else {
      match event
      case Packet(chunk, payload) => ProcessGood(e, s, chunk, payload);
      case Timeout => TimeOutGood(e, s);
      case Abort => StopGood(e, s);
    }
  }

  lemma {:induction false} RunGood(e: Env, s: Ota, events: seq<Event>)
    requires Good(e, s) && AllPossible(e, s, events)
    requires NoLatePackets(e, s, events) && NoLateAborts(e, s, events)
    ensures Good(e, Run(e, s, events))
    decreases |events|
  {
    if events != [] {
      var n := |events| - 1;
      RunGood(e, s, events[..n]);
      ReactGood(e, Run(e, s, events[..n]), events[n]);
    }
  }

  // ---------------------------------------------------------------------------------------
  // Late events
  // ---------------------------------------------------------------------------------------

  /** The update has ended and its watchdog runs, or it has ended twice, or a null callback was
      called. There is no way back from there. */
  predicate Broken(s: Ota) {
    var o := Seen(s);
    o.crashed || (o.ends != [] && (s.armed || |o.ends| >= 2))
  }

  lemma LogEnded(s: Ota, entry: Entry)
    requires Ended(s)
    ensures Ended(Log(s, entry)) && |Seen(Log(s, entry)).ends| >= |Seen(s).ends|
    ensures Seen(s).crashed || entry.NullCall? ==> Seen(Log(s, entry)).crashed
    ensures entry.EndCallback? ==> |Seen(Log(s, entry)).ends| >= 2
  {
    SeenOne(s, entry);
  }

  lemma EndUpdateBreaks(s: Ota, success: bool)
    requires Ended(s)
    ensures Broken(EndUpdate(s, success))
  {
    SeenEndUpdate(s, success);
  }

  lemma ChunkRequestBreaks(e: Env, s: Ota)
    requires Ended(s) && s.requested < s.total
    ensures Broken(RequestNext(e, s))
  {
    var asked := Log(s, Publish(s.requested));
    LogEnded(s, Publish(s.requested));
    LogEnded(asked, Arm);
    LogEnded(asked, NullCall);
  }

  lemma RequestFirstBreaks(e: Env, s: Ota)
    requires Ended(s) && s.total >= 1
    ensures Broken(RequestFirst(e, s))
  {
    if s.callbackSet {
      var first := s.(requested := 0, retries := s.cfg.chunkRetries, hashed := []);
      assert Seen(first) == Seen(s);
      LogEnded(first, HashStart);
      var stopped := Log(Log(first, HashStart), Detach);
      LogEnded(Log(first, HashStart), Detach);
      LogEnded(stopped, UpdaterReset);
      ChunkRequestBreaks(e, Log(stopped, UpdaterReset));
    } else {
      assert Seen(s.(requested := 0)) == Seen(s);
      LogEnded(s.(requested := 0), NullCall);
    }
  }

  lemma RetryUpdateBreaks(e: Env, s: Ota)
    requires Ended(s) && s.total >= 1
    ensures Broken(HandleFailure(e, s, RetryUpdate))
  {
    if s.retries == 0 {
      EndUpdateBreaks(s, false);
    } else {
      var less := s.(retries := s.retries - 1);
      assert Seen(less) == Seen(s);
      RequestFirstBreaks(e, less);
    }
  }

  lemma FinishBreaks(e: Env, s: Ota)
    requires Ended(s) && s.total >= 1
    ensures Broken(FinishUpdate(e, s))
  {
    FinishIs(e, s);
    if e.digest(s.hashed) != s.cfg.checksum {
      RetryUpdateBreaks(e, s);
    } else {
      var ok := Ask(e, s).ok;
      LogEnded(s, UpdaterEnd(ok));
      if ok {
        EndUpdateBreaks(Log(s, UpdaterEnd(ok)), true);
      } else {
        RetryUpdateBreaks(e, Log(s, UpdaterEnd(ok)));
      }
    }
  }

  lemma RequestNextBreaks(e: Env, s: Ota)
    requires Ended(s) && s.total >= 1
    ensures Broken(RequestNext(e, s))
  {
    if s.requested >= s.total {
      FinishBreaks(e, s);
    } else {
      ChunkRequestBreaks(e, s);
    }
  }

  /** The state in which an abort is told. */
  function StopBase(s: Ota): Ota {
    Log(Log(s, Detach), UpdaterReset).(retries := if s.retries == 0 then 0 else s.retries - 1)
  }

  lemma StopIs(e: Env, s: Ota)
    ensures Stop(e, s) == EndUpdate(StopBase(s), false).(callbackSet := false)
    ensures StopBase(s).log == Log(Log(s, Detach), UpdaterReset).log && StopBase(s).callbackSet == s.callbackSet
  {
  }

  lemma StopBreaks(e: Env, s: Ota)
    requires Ended(s)
    ensures Broken(Stop(e, s))
  {
    LogEnded(s, Detach);
    LogEnded(Log(s, Detach), UpdaterReset);
    StopIs(e, s);
    EndUpdateBreaks(StopBase(s), false);
  }

  lemma AcceptBreaks(e: Env, s: Ota, payload: Bytes)
    requires Ended(s) && s.total >= 1
    ensures Broken(Accept(e, s, payload))
  {
    AcceptIs(e, s, payload);
    var stored := s.(hashed := s.hashed + payload, requested := s.requested + 1);
    assert Seen(stored) == Seen(s);
    LogEnded(stored, NullCall);
    LogEnded(stored, Progress(stored.requested, s.total));
    if s.callbackSet {
      var told := Counted(s, payload);
      if Ask(e, s).abort {
        StopBreaks(e, told);
      } else {
        assert Seen(told.(retries := s.cfg.chunkRetries)) == Seen(told);
        RequestNextBreaks(e, told.(retries := s.cfg.chunkRetries));
      }
    }
  }

  lemma StoreBreaks(e: Env, s: Ota, payload: Bytes)
    requires Ended(s) && s.total >= 1
    ensures Broken(Store(e, s, payload))
  {
    StoreIs(e, s, payload);
    var s1 := Log(s, UpdaterWrite(payload, Ask(e, s).written));
    LogEnded(s, UpdaterWrite(payload, Ask(e, s).written));
    if Ask(e, s).written != |payload| {
      RetryUpdateBreaks(e, s1);
    } else {
      var s2 := Log(s1, HashUpdate(payload, Ask(e, s1).ok));
      LogEnded(s1, HashUpdate(payload, Ask(e, s1).ok));
      if Ask(e, s1).ok {
        AcceptBreaks(e, s2, payload);
      } else {
        RetryUpdateBreaks(e, s2);
      }
    }
  }

  lemma LatePacketBreaks(e: Env, s: Ota, payload: Bytes)
    requires Ended(s) && s.total >= 1
    ensures Broken(Process(e, s, s.requested, payload))
  {
    ProcessIs(e, s, payload);
    LogEnded(s, Received(s.requested, payload));
    LogEnded(Log(s, Received(s.requested, payload)), Detach);
    var t := Taken(s, payload);
    if s.requested == 0 {
      var begun := Log(t, UpdaterBegin(s.cfg.fwSize, Ask(e, t).ok));
      LogEnded(t, UpdaterBegin(s.cfg.fwSize, Ask(e, t).ok));
      if Ask(e, t).ok {
        StoreBreaks(e, begun, payload);
      } else {
        RetryUpdateBreaks(e, begun);
      }
    } else {
      StoreBreaks(e, t, payload);
    }
  }

  lemma TimeOutBreaks(e: Env, s: Ota)
    requires Ended(s) && s.total >= 1
    ensures Broken(TimeOut(e, s))
  {
    var fired := Log(s, Fired);
    LogEnded(s, Fired);
    if s.retries == 0 {
      EndUpdateBreaks(fired, false);
    } else {
      var less := fired.(retries := s.retries - 1);
      assert Seen(less) == Seen(fired);
      RequestNextBreaks(e, less);
    }
  }

  /** A late packet, a late abort and a late timeout each do that. */
  lemma LateBreaks(e: Env, s: Ota, event: Event)
    requires Ended(s) && s.total >= 1 && (LatePacket(s, event) || LateAbort(s, event) || event.Timeout?)
    ensures Broken(React(e, s, event))
  {
    match event
    case Packet(_, payload) => LatePacketBreaks(e, s, payload);
    case Timeout => TimeOutBreaks(e, s);
    case Abort => StopBreaks(e, s);
  }

  lemma BrokenStays(e: Env, s: Ota, event: Event)
    requires Broken(s) && s.total >= 1 && Possible(s, event)
    ensures Broken(React(e, s, event))
  {
    if LatePacket(s, event) || LateAbort(s, event) || event.Timeout? {
      LateBreaks(e, s, event);
    } else {
      LogEnded(s, Received(event.chunk, event.payload));
    }
  }

  lemma {:induction false} BrokenRun(e: Env, s: Ota, events: seq<Event>)
    requires Broken(s) && s.total >= 1 && AllPossible(e, s, events)
    ensures Broken(Run(e, s, events))
    decreases |events|
  {
    if events != [] {
      var n := |events| - 1;
      BrokenRun(e, s, events[..n]);
      BrokenStays(e, Run(e, s, events[..n]), events[n]);
    }
  }

  lemma {:induction false} LateEventBreaksRun(e: Env, s: Ota, events: seq<Event>)
    requires Good(e, s) && AllPossible(e, s, events)
    requires !NoLatePackets(e, s, events) || !NoLateAborts(e, s, events)
    ensures Broken(Run(e, s, events))
    decreases |events|
  {
    var n := |events| - 1;
    var before := Run(e, s, events[..n]);
    if NoLatePackets(e, s, events[..n]) && NoLateAborts(e, s, events[..n]) {
      LateBreaks(e, before, events[n]);
    } else {
      LateEventBreaksRun(e, s, events[..n]);
      BrokenStays(e, before, events[n]);
    }
  }

  /** An abort after the end: it is told once more, as a failure, whatever the end was; after an end
      by abort the null callback is called. */
  lemma LateAbortEffect(e: Env, s: Ota)
    requires Over(e, s)
    ensures var o, p := Seen(s), Seen(Stop(e, s));
            && p.crashed == !s.callbackSet && p.commits == o.commits
            && p.ends == (if s.callbackSet then o.ends + [false] else o.ends)
            && p.finishes == (if s.callbackSet then 2 else 1)
  {
    SeenOne(s, Detach);
    SeenOne(Log(s, Detach), UpdaterReset);
    StopIs(e, s);
    SeenEndUpdate(StopBase(s), false);
  }

  /** The update has ended, perhaps several times, and the watchdog does not run. */
  predicate Finished(e: Env, s: Ota) {
    CommitSafe(e, s.cfg, s.total, s.log) && s.total >= 1 && Ended(s) && !s.armed
  }

  lemma LogKeepsFinished(e: Env, s: Ota, entry: Entry)
    requires Finished(e, s) && !entry.UpdaterEnd? && !entry.Arm?
    ensures Finished(e, Log(s, entry))
  {
    LogKeepsCommitSafe(e, s, entry);
    LogEnded(s, entry);
  }

  lemma EndUpdateFinishes(e: Env, s: Ota)
    requires Finished(e, s)
    ensures Finished(e, EndUpdate(s, false))
  {
    if s.callbackSet {
      LogKeepsFinished(e, s, EndCallback(false));
      LogKeepsFinished(e, Log(s, EndCallback(false)), FinishCallback);
    } else {
      LogKeepsFinished(e, s, NullCall);
    }
  }

  lemma StopFinishes(e: Env, s: Ota)
    requires Finished(e, s)
    ensures Finished(e, Stop(e, s))
  {
    LogKeepsFinished(e, s, Detach);
    LogKeepsFinished(e, Log(s, Detach), UpdaterReset);
    StopIs(e, s);
    EndUpdateFinishes(e, StopBase(s));
  }

  lemma FinishedStays(e: Env, s: Ota, event: Event)
    requires Finished(e, s) && Possible(s, event) && !LatePacket(s, event)
    ensures Finished(e, React(e, s, event))
  {
    if event.Abort? {
      StopFinishes(e, s);
    } else {
      LogKeepsFinished(e, s, Received(event.chunk, event.payload));
    }
  }

  lemma {:induction false} RunCommitsSafely(e: Env, s: Ota, events: seq<Event>)
    requires Good(e, s) && AllPossible(e, s, events) && NoLatePackets(e, s, events)
    ensures Good(e, Run(e, s, events)) || Finished(e, Run(e, s, events))
    decreases |events|
  {
    if events != [] {
      var n := |events| - 1;
      var before := Run(e, s, events[..n]);
      RunCommitsSafely(e, s, events[..n]);
      if Finished(e, before) {
        FinishedStays(e, before, events[n]);
      } else {
        ReactGood(e, before, events[n]);
      }
    }
  }
}
