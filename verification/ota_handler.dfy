/** The class OTA_Handler of OTA_Handler.h. Its methods update the fields step by step and are
    proved against the functions of OtaSpec, whose guarantees are proved in OtaRuns. */
module OtaHandler {
  import opened OtaSpec

  class Handler {
    const env: Env           // the updater, the hash and the callbacks
    var cfg: Config
    var callbackSet: bool
    var total: nat
    var requested: nat
    var retries: nat
    var hashed: Bytes
    var armed: bool          // the watchdog is running
    var log: seq<Entry>

    function View(): Ota
      reads this
    {
      Ota(cfg, callbackSet, total, requested, retries, hashed, armed, log)
    }

    constructor (env: Env, cfg: Config)
      ensures this.env == env && View() == Ota(cfg, false, 0, 0, 0, [], false, [])
    {
      this.env := env;
      this.cfg := cfg;
      callbackSet, total, requested, retries, hashed, armed, log := false, 0, 0, 0, [], false, [];
    }

    method Note(entry: Entry)
      modifies `log, `armed
      ensures View() == Log(old(View()), entry)
    {
      log, armed := log + [entry], ArmedAfter(armed, entry);
    }

    method StartFirmwareUpdate(newCfg: Config, updaterPresent: bool)
      requires ValidConfig(newCfg) && TotalChunks(newCfg.fwSize, newCfg.chunkSize) >= 1
      modifies this
      ensures View() == Start(env, old(View()), newCfg, updaterPresent)
    {
      cfg := newCfg;
      callbackSet := true;
      log := [];
      total := TotalChunks(cfg.fwSize, cfg.chunkSize);
      if !updaterPresent {
        Fail(RetryNothing);
        return;
      }
      RequestFirstFirmwarePacket();
    }

    method StopFirmwareUpdate()
      modifies this
      ensures View() == Stop(env, old(View()))
    {
      Note(Detach);
      Note(UpdaterReset);
      Fail(RetryNothing);
      callbackSet := false;
    }

    method ProcessFirmwarePacket(chunk: nat, payload: Bytes)
      requires total >= 1
      modifies this
      ensures View() == Process(env, old(View()), chunk, payload)
    {
      Note(Received(chunk, payload));
      if chunk != requested {
        return;
      }
      Note(Detach);
      if chunk == 0 {
        var begun := env.reply(|log|).ok;
        Note(UpdaterBegin(cfg.fwSize, begun));
        if !begun {
          Fail(RetryUpdate);
          return;
        }
      }
      StoreFirmwarePacket(payload);
    }

    /** The second half of the method above. */
    method StoreFirmwarePacket(payload: Bytes)
      requires total >= 1
      modifies this
      ensures View() == Store(env, old(View()), payload)
    {
      var written := env.reply(|log|).written;
      Note(UpdaterWrite(payload, written));
      if written != |payload| {
        Fail(RetryUpdate);
        return;
      }
      var updated := env.reply(|log|).ok;
      Note(HashUpdate(payload, updated));
      if !updated {
        Fail(RetryUpdate);
        return;
      }
      AcceptFirmwarePacket(payload);
    }

    /** The end of it. */
    method AcceptFirmwarePacket(payload: Bytes)
      requires total >= 1
      modifies this
      ensures View() == Accept(env, old(View()), payload)
    {
      hashed := hashed + payload;
      requested := requested + 1;
      if !callbackSet {
        Note(NullCall);
        return;
      }
      // the progress callback of the user may stop the update
      var aborted := env.reply(|log|).abort;
      Note(Progress(requested, total));
      if aborted {
        StopFirmwareUpdate();
        return;
      }
      retries := cfg.chunkRetries;
      RequestNextFirmwarePacket();
    }

    method HandleRequestTimeout()
      requires total >= 1
      modifies this
      ensures View() == TimeOut(env, old(View()))
    {
      Note(Fired);
      Fail(RetryChunk);
    }

    method RequestFirstFirmwarePacket()
      requires total >= 1
      modifies this
      ensures View() == RequestFirst(env, old(View()))
      decreases 1
    {
      requested := 0;
      if !callbackSet {
        Note(NullCall);
        return;
      }
      retries := cfg.chunkRetries;
      hashed := [];
      Note(HashStart);
      Note(Detach);
      Note(UpdaterReset);
      RequestNextFirmwarePacket();
    }

    method RequestNextFirmwarePacket()
      requires total >= 1
      modifies this
      ensures View() == RequestNext(env, old(View()))
      decreases if requested >= total then 4 else 0
    {
      if requested >= total {
        FinishFirmwareUpdate();
        return;
      }
      Note(Publish(requested));
      if !callbackSet {
        Note(NullCall);
        return;
      }
      Note(Arm);
    }

    method FinishFirmwareUpdate()
      requires total >= 1
      modifies this
      ensures View() == FinishUpdate(env, old(View()))
      decreases 3
    {
      if env.digest(hashed) != cfg.checksum {
        Fail(RetryUpdate);
        return;
      }
      var ended := env.reply(|log|).ok;
      Note(UpdaterEnd(ended));
      if !ended {
        Fail(RetryUpdate);
        return;
      }
      Tell(true);
    }

    /** The end callback, then the finish callback. */
    method Tell(success: bool)
      modifies `log, `armed
      ensures View() == EndUpdate(old(View()), success)
    {
      if !callbackSet {
        Note(NullCall);
        return;
      }
      Note(EndCallback(success));
      Note(FinishCallback);
    }

    /** Handle_Failure. */
    method Fail(response: FailureResponse)
      requires total >= 1 || response == RetryNothing
      modifies this
      ensures View() == HandleFailure(env, old(View()), response)
      decreases if response == RetryUpdate then 2 else 5
    {
      if retries == 0 {
        Tell(false);
        return;
      }
      retries := retries - 1;
      match response {
        case RetryChunk =>
          RequestNextFirmwarePacket();
        case RetryUpdate =>
          RequestFirstFirmwarePacket();
        case RetryNothing =>
          Tell(false);
      }
    }
  }
}
