/** Runs with an honest server: the image grows slice by slice, and the final check never fails. */
module OtaFinalCheck {
  import opened Arith
  import opened OtaSpec
  import opened OtaProperties
  import opened OtaRuns

  /** The first n slices. */
  function Served(image: Bytes, chunkSize: nat, n: nat): Bytes {
    image[..Min(n * chunkSize, |image|)]
  }

  /** As long as an update goes on, what is stored and hashed is the beginning of the image; with the
      last slice it is the image. */
  lemma HonestProgress(e: Env, b: Beginning, events: seq<Event>, s: Ota, image: Bytes)
    requires Reaches(e, b, events, s) && Clean(b) && NoLatePacketsIn(e, b, events) && !Ended(s)
    requires |image| == s.cfg.fwSize && HonestServer(image, s.cfg.chunkSize, s.log)
    ensures Active(e, s) && Seen(s).written == s.hashed
    ensures s.hashed == Served(image, s.cfg.chunkSize, s.requested)
    ensures s.requested == s.total - 1 ==> s.hashed + Slice(image, s.cfg.chunkSize, s.requested) == image
  {
    RunningIsActive(e, b, events, s);
    HonestStored(e, s, image);
    if s.requested == s.total - 1 {
      TotalIsPositive(s.cfg);
      LastSliceCompletes(image, s.cfg.chunkSize, s.requested);
    }
  }

  lemma RunningIsActive(e: Env, b: Beginning, events: seq<Event>, s: Ota)
    requires Reaches(e, b, events, s) && Clean(b) && NoLatePacketsIn(e, b, events) && !Ended(s)
    ensures Active(e, s) && Seen(s).written == s.hashed
    ensures ValidConfig(s.cfg) && s.total == TotalChunks(s.cfg.fwSize, s.cfg.chunkSize) >= 1
  {
    CleanBegin(e, b);
    RunCommitsSafely(e, Begin(e, b), events);
  }

  lemma LastSliceCompletes(image: Bytes, chunkSize: nat, last: nat)
    requires chunkSize > 0 && |image| / chunkSize + 1 < SIZE_T_RANGE && last + 1 == TotalChunks(|image|, chunkSize)
    ensures Served(image, chunkSize, last) + Slice(image, chunkSize, last) == image
  {
    TotalCoversImage(|image|, chunkSize);
    NextSlice(image, chunkSize, last);
    assert image[..|image|] == image;
  }

  lemma HonestStored(e: Env, s: Ota, image: Bytes)
    requires Active(e, s) && HonestServer(image, s.cfg.chunkSize, s.log)
    ensures s.hashed == Served(image, s.cfg.chunkSize, s.requested)
  {
    var parts := Seen(s).parts;
    forall k | 0 <= k < |parts| ensures parts[k].data == Slice(image, s.cfg.chunkSize, k) {
      assert Received(k, parts[k].data) in s.log;
    }
    SlicesAreImage(parts, image, s.cfg.chunkSize);
  }

  // ---------------------------------------------------------------------------------------
  // What follows the last chunk
  // ---------------------------------------------------------------------------------------

  /** If entry i tells the progress of the last chunk, what follows is updater->end, or the user aborts
      the update there: neither a restart nor a failure. */
  predicate SettledAt(log: seq<Entry>, total: nat, i: nat)
    requires i < |log|
  {
    log[i] == Progress(total, total) ==> i + 1 < |log| && (log[i + 1].UpdaterEnd? || log[i + 1].Detach?)
  }

  /** That holds of the first n entries. */
  predicate SettledTo(log: seq<Entry>, total: nat, n: nat)
    requires n <= |log|
  {
    forall i: nat :: i < n ==> SettledAt(log, total, i)
  }

  predicate Settled(s: Ota) {
    SettledTo(s.log, s.total, |s.log|)
  }

  /** All but the last entry. */
  predicate Pending(s: Ota) {
    s.log != [] && SettledTo(s.log, s.total, |s.log| - 1)
  }

  lemma LogSettles(s: Ota, entry: Entry)
    requires Settled(s) || (Pending(s) && (entry.UpdaterEnd? || entry.Detach?))
    ensures Pending(Log(s, entry))
    ensures entry != Progress(s.total, s.total) ==> Settled(Log(s, entry))
  {
    var t := Log(s, entry);
    forall i: nat | i < |s.log| ensures SettledAt(t.log, t.total, i) {
      if Settled(s) || i < |s.log| - 1 {
        assert SettledAt(s.log, s.total, i);
      }
    }
  }

  lemma EndUpdateSettles(s: Ota, success: bool)
    requires Settled(s)
    ensures Settled(EndUpdate(s, success))
  {
    LogSettles(s, NullCall);
    LogSettles(s, EndCallback(success));
    LogSettles(Log(s, EndCallback(success)), FinishCallback);
  }

  lemma ChunkRequestSettles(e: Env, s: Ota)
    requires Settled(s) && s.requested < s.total
    ensures Settled(RequestNext(e, s))
  {
    var asked := Log(s, Publish(s.requested));
    LogSettles(s, Publish(s.requested));
    LogSettles(asked, NullCall);
    LogSettles(asked, Arm);
  }

  lemma RequestFirstSettles(e: Env, s: Ota)
    requires Settled(s) && s.total >= 1
    ensures Settled(RequestFirst(e, s))
  {
    if s.callbackSet {
      var first := s.(requested := 0, retries := s.cfg.chunkRetries, hashed := []);
      assert Settled(first);
      LogSettles(first, HashStart);
      var stopped := Log(Log(first, HashStart), Detach);
      LogSettles(Log(first, HashStart), Detach);
      LogSettles(stopped, UpdaterReset);
      ChunkRequestSettles(e, Log(stopped, UpdaterReset));
    } else {
      assert Settled(s.(requested := 0));
      LogSettles(s.(requested := 0), NullCall);
    }
  }

  lemma RetryUpdateSettles(e: Env, s: Ota)
    requires Settled(s) && s.total >= 1
    ensures Settled(HandleFailure(e, s, RetryUpdate))
  {
    if s.retries == 0 {
      EndUpdateSettles(s, false);
    } else {
      assert Settled(s.(retries := s.retries - 1));
      RequestFirstSettles(e, s.(retries := s.retries - 1));
    }
  }

  /** The final check, right after the progress of the last chunk only if it passes. */
  lemma FinishSettles(e: Env, s: Ota)
    requires s.total >= 1 && (Settled(s) || (Pending(s) && e.digest(s.hashed) == s.cfg.checksum))
    ensures Settled(FinishUpdate(e, s))
  {
    FinishIs(e, s);
    if e.digest(s.hashed) != s.cfg.checksum {
      RetryUpdateSettles(e, s);
    } else {
      var ended := Log(s, UpdaterEnd(Ask(e, s).ok));
      LogSettles(s, UpdaterEnd(Ask(e, s).ok));
      if Ask(e, s).ok {
        EndUpdateSettles(ended, true);
      } else {
        RetryUpdateSettles(e, ended);
      }
    }
  }

  lemma RequestNextSettles(e: Env, s: Ota)
    requires s.total >= 1
    requires Settled(s) || (Pending(s) && s.requested >= s.total && e.digest(s.hashed) == s.cfg.checksum)
    ensures Settled(RequestNext(e, s))
  {
    if s.requested >= s.total {
      FinishSettles(e, s);
    } else {
      ChunkRequestSettles(e, s);
    }
  }

  lemma StopSettles(e: Env, s: Ota)
    requires Settled(s) || Pending(s)
    ensures Settled(Stop(e, s))
  {
    LogSettles(s, Detach);
    LogSettles(Log(s, Detach), UpdaterReset);
    StopIs(e, s);
    assert Settled(StopBase(s));
    EndUpdateSettles(StopBase(s), false);
  }

  lemma TimeOutSettles(e: Env, s: Ota)
    requires Settled(s) && s.total >= 1
    ensures Settled(TimeOut(e, s))
  {
    var fired := Log(s, Fired);
    LogSettles(s, Fired);
    if s.retries == 0 {
      EndUpdateSettles(fired, false);
    } else {
      assert Settled(fired.(retries := s.retries - 1));
      RequestNextSettles(e, fired.(retries := s.retries - 1));
    }
  }

  /** What may follow the progress of a chunk. */
  lemma CountedSettles(e: Env, s: Ota)
    requires Pending(s) && s.total >= 1 && (s.requested < s.total ==> Settled(s))
    requires s.requested >= s.total ==> e.digest(s.hashed) == s.cfg.checksum
    ensures Settled(Stop(e, s)) && Settled(RequestNext(e, s.(retries := s.cfg.chunkRetries)))
  {
    StopSettles(e, s);
    RequestNextSettles(e, s.(retries := s.cfg.chunkRetries));
  }

  lemma AcceptSettles(e: Env, s: Ota, payload: Bytes)
    requires Settled(s) && s.requested < s.total && s.callbackSet
    requires s.requested + 1 == s.total ==> e.digest(s.hashed + payload) == s.cfg.checksum
    ensures Settled(Accept(e, s, payload))
  {
    AcceptIs(e, s, payload);
    var stored := s.(hashed := s.hashed + payload, requested := s.requested + 1);
    LogSettles(stored, Progress(stored.requested, s.total));
    CountedSettles(e, Counted(s, payload));
  }

  lemma StoreSettles(e: Env, s: Ota, payload: Bytes)
    requires Settled(s) && s.requested < s.total && s.callbackSet
    requires s.requested + 1 == s.total ==> e.digest(s.hashed + payload) == s.cfg.checksum
    ensures Settled(Store(e, s, payload))
  {
    StoreIs(e, s, payload);
    var s1 := Log(s, UpdaterWrite(payload, Ask(e, s).written));
    LogSettles(s, UpdaterWrite(payload, Ask(e, s).written));
    if Ask(e, s).written != |payload| {
      RetryUpdateSettles(e, s1);
    } else {
      var s2 := Log(s1, HashUpdate(payload, Ask(e, s1).ok));
      LogSettles(s1, HashUpdate(payload, Ask(e, s1).ok));
      if Ask(e, s1).ok {
        AcceptSettles(e, s2, payload);
      } else {
        RetryUpdateSettles(e, s2);
      }
    }
  }

  lemma ProcessSettles(e: Env, s: Ota, chunk: nat, payload: Bytes)
    requires Settled(s) && s.total >= 1
    requires chunk == s.requested ==> s.requested < s.total && s.callbackSet
    requires chunk == s.requested && chunk + 1 == s.total ==> e.digest(s.hashed + payload) == s.cfg.checksum
    ensures Settled(Process(e, s, chunk, payload))
  {
    var s0 := Log(s, Received(chunk, payload));
    LogSettles(s, Received(chunk, payload));
    if chunk == s.requested {
      var s1 := Log(s0, Detach);
      LogSettles(s0, Detach);
      if chunk == 0 {
        var s2 := Log(s1, UpdaterBegin(s.cfg.fwSize, Ask(e, s1).ok));
        LogSettles(s1, UpdaterBegin(s.cfg.fwSize, Ask(e, s1).ok));
        if Ask(e, s1).ok {
          StoreSettles(e, s2, payload);
        } else {
          RetryUpdateSettles(e, s2);
        }
      } else {
        StoreSettles(e, s1, payload);
      }
    }
  }

  lemma HonestReactSettles(e: Env, b: Beginning, events: seq<Event>, s: Ota, event: Event, image: Bytes)
    requires Reaches(e, b, events, s) && Clean(b) && NoLatePacketsIn(e, b, events)
    requires Settled(s) && Possible(s, event) && !LatePacket(s, event)
    requires |image| == s.cfg.fwSize && HonestServer(image, s.cfg.chunkSize, React(e, s, event).log)
    requires e.digest(image) == s.cfg.checksum
    ensures Settled(React(e, s, event))
  {
    match event
    case Packet(chunk, payload) =>
      if chunk == s.requested {
        var log := React(e, s, event).log;
        assert forall i, p :: Received(i, p) in s.log ==> Received(i, p) in log;
        HonestProgress(e, b, events, s, image);
        ProcessReceives(e, s, chunk, payload);
      }
      ProcessSettles(e, s, chunk, payload);
    case Timeout => TimeOutSettles(e, s);
    case Abort => StopSettles(e, s);
  }

  lemma ProcessReceives(e: Env, s: Ota, chunk: nat, payload: Bytes)
    requires s.total >= 1
    ensures Received(chunk, payload) in Process(e, s, chunk, payload).log
  {
    var s0 := Log(s, Received(chunk, payload));
    assert s0.log[|s.log|] == Received(chunk, payload);
    assert s0.log <= Process(e, s, chunk, payload).log;
  }

  /** In every run with an honest server whose image has the expected digest, the final check passes: an
      update whose last chunk was accepted goes on to updater->end, unless the user aborts it there. */
  lemma {:induction false} HonestServerPassesCheck(e: Env, b: Beginning, events: seq<Event>, s: Ota, image: Bytes)
    requires Reaches(e, b, events, s) && Clean(b) && NoLatePacketsIn(e, b, events)
    requires |image| == s.cfg.fwSize && HonestServer(image, s.cfg.chunkSize, s.log)
    requires e.digest(image) == s.cfg.checksum
    ensures Settled(s)
    decreases |events|
  {
    if events == [] {
      BeginSettled(e, b);
    } else {
      var n := |events| - 1;
      var before := Run(e, Begin(e, b), events[..n]);
      assert before.log <= s.log;
      assert forall i, p :: Received(i, p) in before.log ==> Received(i, p) in s.log;
      HonestServerPassesCheck(e, b, events[..n], before, image);
      HonestReactSettles(e, b, events[..n], before, events[n], image);
    }
  }

  lemma BeginSettled(e: Env, b: Beginning)
    requires ValidBeginning(b)
    ensures Settled(Begin(e, b))
  {
    var s := b.previous.(cfg := b.cfg, callbackSet := true, log := [],
                         total := TotalChunks(b.cfg.fwSize, b.cfg.chunkSize));
    assert Settled(s);
    if b.updaterPresent {
      RequestFirstSettles(e, s);
    } else {
      assert Settled(s.(retries := if s.retries == 0 then 0 else s.retries - 1));
      EndUpdateSettles(s.(retries := if s.retries == 0 then 0 else s.retries - 1), false);
    }
  }

  // ---------------------------------------------------------------------------------------
  // Late packets
  // ---------------------------------------------------------------------------------------

  /** Updater, hash and user let the next chunk pass. */
  predicate Passes(e: Env, s: Ota, payload: Bytes) {
    var s1 := Log(Log(s, Received(s.requested, payload)), Detach);
    var s2 := Log(s1, UpdaterWrite(payload, |payload|));
    var s3 := Log(s2, HashUpdate(payload, true));
    Ask(e, s1).written == |payload| && Ask(e, s2).ok && !Ask(e, s3).abort
  }

  /** What a chunk adds to the log until it is counted. */
  function Passing(s: Ota, payload: Bytes): Ota {
    Counted(Log(Log(Log(Log(s, Received(s.requested, payload)), Detach),
                    UpdaterWrite(payload, |payload|)), HashUpdate(payload, true)), payload)
  }

  lemma StoringSeen(s: Ota, payload: Bytes)
    ensures var t := Counted(Log(Log(s, UpdaterWrite(payload, |payload|)), HashUpdate(payload, true)), payload);
            var o := Seen(s);
            && Seen(t) == o.(written := o.written + payload, hashed := o.hashed + payload,
                             parts := o.parts + [Part(o.current.index, payload)])
            && t.log == s.log + [UpdaterWrite(payload, |payload|), HashUpdate(payload, true),
                                 Progress(s.requested + 1, s.total)]
  {
    var s1 := Log(s, UpdaterWrite(payload, |payload|));
    var s2 := Log(s1, HashUpdate(payload, true));
    SeenOne(s, UpdaterWrite(payload, |payload|));
    SeenOne(s1, HashUpdate(payload, true));
    var stored := s2.(hashed := s2.hashed + payload, requested := s2.requested + 1);
    assert Seen(stored) == Seen(s2);
    SeenOne(stored, Progress(stored.requested, s.total));
  }

  lemma PassingSeen(s: Ota, payload: Bytes)
    ensures var o, p := Seen(s), Seen(Passing(s, payload));
            && p.begun == o.begun && p.written == o.written + payload && p.hashed == o.hashed + payload
            && p.parts == o.parts + [Part(s.requested, payload)]
    ensures Passing(s, payload).log
            == s.log + [Received(s.requested, payload), Detach, UpdaterWrite(payload, |payload|),
                        HashUpdate(payload, true), Progress(s.requested + 1, s.total)]
  {
    var s1 := Log(s, Received(s.requested, payload));
    var s2 := Log(s1, Detach);
    SeenOne(s, Received(s.requested, payload));
    SeenOne(s1, Detach);
    StoringSeen(s2, payload);
  }

  lemma InOrderAfterPassing(s: Ota, payload: Bytes)
    requires |Seen(s).parts| == s.requested
    ensures InOrder(Seen(s).parts + [Part(s.requested, payload)], Passing(s, payload).log)
            <==> InOrder(Seen(s).parts, s.log)
  {
    PassingSeen(s, payload);
    var old_, parts, log := Seen(s).parts, Seen(s).parts + [Part(s.requested, payload)], Passing(s, payload).log;
    assert forall i | 0 <= i < |old_| :: parts[i] == old_[i];
    assert forall i, p :: 0 <= i < s.requested ==> (Received(i, p) in log <==> Received(i, p) in s.log);
    assert Received(s.requested, payload) in log;
  }

  lemma ReadyAfterPassing(e: Env, s: Ota, payload: Bytes)
    requires 0 < s.requested == s.total - 1 && Seen(s).hashed == s.hashed
    requires e.digest(s.hashed + payload) == s.cfg.checksum
    ensures Ready(e, s.cfg, s.total, Passing(s, payload).log) <==> Synced(s)
  {
    PassingSeen(s, payload);
    var o := Seen(s);
    var parts := o.parts + [Part(s.requested, payload)];
    assert parts[..|o.parts|] == o.parts && Flatten(parts) == Flatten(o.parts) + payload;
    if |o.parts| == s.requested {
      InOrderAfterPassing(s, payload);
    }
    SuffixEqual(Flatten(o.parts), o.written, payload);
    SuffixEqual(o.hashed, o.written, payload);
  }

  lemma SuffixEqual(a: Bytes, b: Bytes, c: Bytes)
    ensures a + c == b + c <==> a == b
  {
    if a + c == b + c {
      assert |a| == |b|;
      assert (a + c)[..|a|] == a && (b + c)[..|b|] == b;
    }
  }

  lemma PassingProcessed(e: Env, s: Ota, payload: Bytes)
    requires s.total >= 1 && s.callbackSet && 0 < s.requested && Passes(e, s, payload)
    ensures Process(e, s, s.requested, payload) == RequestNext(e, Passing(s, payload).(retries := s.cfg.chunkRetries))
  {
    var s2 := Log(Log(s, Received(s.requested, payload)), Detach);
    var s3 := Log(s2, UpdaterWrite(payload, |payload|));
    var s4 := Log(s3, HashUpdate(payload, true));
    assert Process(e, s, s.requested, payload) == Store(e, s2, payload);
    assert Store(e, s2, payload) == Accept(e, s4, payload);
  }

  /** The last chunk once more, after the update has ended: it goes on, and if the digest is the
      expected one it is committed. The commit is safe if and only if what is stored and what is hashed
      were still in step. */
  lemma LatePacketCommits(e: Env, s: Ota, payload: Bytes)
    requires Over(e, s) && s.callbackSet && 0 < s.requested == s.total - 1 && Seen(s).hashed == s.hashed
    requires Passes(e, s, payload) && e.digest(s.hashed + payload) == s.cfg.checksum
    ensures var t, n := Process(e, s, s.requested, payload), |s.log| + 5;
            && |t.log| > n && t.log[n].UpdaterEnd?
            && (CommitSafeAt(e, t.cfg, t.total, t.log, n) <==> Synced(s))
  {
    var next := Passing(s, payload).(retries := s.cfg.chunkRetries);
    PassingProcessed(e, s, payload);
    PassingSeen(s, payload);
    ReadyAfterPassing(e, s, payload);
    var ended := Log(next, UpdaterEnd(Ask(e, next).ok));
    var t := FinishUpdate(e, next);
    assert ended.log <= t.log && t.log[..|s.log| + 5] == next.log;
  }

  /** They are not after the write of a chunk failed half way for the last time. */
  lemma FailedWriteLeavesRest(e: Env, s: Ota, payload: Bytes)
    requires Active(e, s) && s.retries == 0 && s.requested > 0
    requires var s1 := Log(Log(s, Received(s.requested, payload)), Detach); 0 < Ask(e, s1).written < |payload|
    ensures var t := Process(e, s, s.requested, payload);
            && Over(e, t) && t.callbackSet && t.requested == s.requested && t.hashed == s.hashed
            && Seen(t).hashed == t.hashed && !Synced(t)
  {
    var s1 := Log(Log(s, Received(s.requested, payload)), Detach);
    var s2 := Log(s1, UpdaterWrite(payload, Ask(e, s1).written));
    SeenLog();
    LogsKeepCommitSafe(e);
    assert Process(e, s, s.requested, payload) == EndUpdate(s2, false);
    SeenEndUpdate(s2, false);
    assert |Seen(s2).written| > |s.hashed|;
  }
}
