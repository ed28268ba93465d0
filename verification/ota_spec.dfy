/** The firmware update of OTA_Handler.h as functions from state to state.

    Everything outside the handler answers through an Env: the reply to a call is looked up by the
    number of calls made before it, so a lemma over every Env is a lemma over every behaviour of
    the updater, the hash, the publish callback and the progress callback. The log lists the
    calls and the events the handler saw since the update was started. */
module OtaSpec {

  type Bytes = seq<bv8>

  datatype Reply = Reply(ok: bool, written: nat, abort: bool)

  datatype Env = Env(reply: nat -> Reply, digest: Bytes -> string)

  datatype Config = Config(fwSize: nat, chunkSize: nat, chunkRetries: nat, checksum: string)

  datatype Entry =
    // what reaches the handler
    | Received(chunk: nat, payload: Bytes)
    | Fired
    // what the handler calls
    | Publish(request: nat)
    | Arm
    | Detach
    | HashStart
    | HashUpdate(hashData: Bytes, hashOk: bool)
    | UpdaterReset
    | UpdaterBegin(size: nat, beginOk: bool)
    | UpdaterWrite(data: Bytes, written: nat)
    | UpdaterEnd(endOk: bool)
    | Progress(current: nat, total: nat)
    | EndCallback(success: bool)
    | FinishCallback
    // a call through m_fw_callback after an abort has set it to null: nothing is known from here on
    | NullCall

  datatype Ota = Ota(
    cfg: Config,
    callbackSet: bool,   // m_fw_callback is not null; an abort resets it
    total: nat,          // m_total_chunks
    requested: nat,      // m_requested_chunks
    retries: nat,        // m_retries
    hashed: Bytes,       // what m_hash has consumed
    armed: bool,         // m_watchdog is running
    log: seq<Entry>)

  datatype FailureResponse = RetryChunk | RetryUpdate | RetryNothing

  datatype Event = Packet(chunk: nat, payload: Bytes) | Timeout | Abort

  const SIZE_T_RANGE: nat := 0x1_0000_0000

  /** m_total_chunks, a 32-bit size_t. */
  function TotalChunks(fwSize: nat, chunkSize: nat): nat
    requires chunkSize > 0
  {
    (fwSize / chunkSize + 1) % SIZE_T_RANGE
  }

  predicate ValidConfig(cfg: Config) {
    0 < cfg.chunkSize < 0x1_0000 && cfg.fwSize < SIZE_T_RANGE && cfg.chunkRetries < 0x100
  }

  /** The watchdog after a call or an event. */
  function ArmedAfter(armed: bool, entry: Entry): bool {
    match entry
    case Arm => true
    case Detach => false
    case Fired => false
    case _ => armed
  }

  function Log(s: Ota, entry: Entry): (t: Ota)
    ensures t.cfg == s.cfg && t.total == s.total && s.log <= t.log
  {
    s.(log := s.log + [entry], armed := ArmedAfter(s.armed, entry))
  }

  function Ask(e: Env, s: Ota): Reply {
    e.reply(|s.log|)
  }

  /** The end callback, then the finish callback. */
  function EndUpdate(s: Ota, success: bool): (t: Ota)
    ensures t.cfg == s.cfg && t.total == s.total && s.log <= t.log
  {
    if !s.callbackSet then Log(s, NullCall)
    else Log(Log(s, EndCallback(success)), FinishCallback)
  }

  function RequestFirst(e: Env, s: Ota): (t: Ota)
    requires s.total >= 1
    ensures t.cfg == s.cfg && t.total == s.total && s.log <= t.log
    decreases 1
  {
    if !s.callbackSet then Log(s.(requested := 0), NullCall)
    else
      var s1 := s.(requested := 0, retries := s.cfg.chunkRetries, hashed := []);
      RequestNext(e, Log(Log(Log(s1, HashStart), Detach), UpdaterReset))
  }

  function RequestNext(e: Env, s: Ota): (t: Ota)
    requires s.total >= 1
    ensures t.cfg == s.cfg && t.total == s.total && s.log <= t.log
    decreases if s.requested >= s.total then 4 else 0
  {
    if s.requested >= s.total then FinishUpdate(e, s)
    else if !s.callbackSet then Log(Log(s, Publish(s.requested)), NullCall)
    else Log(Log(s, Publish(s.requested)), Arm)
  }

  function FinishUpdate(e: Env, s: Ota): (t: Ota)
    requires s.total >= 1
    ensures t.cfg == s.cfg && t.total == s.total && s.log <= t.log
    decreases 3
  {
    if e.digest(s.hashed) != s.cfg.checksum then
      HandleFailure(e, s, RetryUpdate)
    else
      var ok := Ask(e, s).ok;
      var s1 := Log(s, UpdaterEnd(ok));
      if !ok then HandleFailure(e, s1, RetryUpdate) else EndUpdate(s1, true)
  }

  function HandleFailure(e: Env, s: Ota, response: FailureResponse): (t: Ota)
    requires s.total >= 1 || response == RetryNothing
    ensures t.cfg == s.cfg && t.total == s.total && s.log <= t.log
    decreases if response == RetryUpdate then 2 else 5
  {
    if s.retries == 0 then
      EndUpdate(s, false)
    else
      var s1 := s.(retries := s.retries - 1);
      match response
      case RetryChunk => RequestNext(e, s1)
      case RetryUpdate => RequestFirst(e, s1)
      case RetryNothing => EndUpdate(s1, false)
  }

  /** Start_Firmware_Update. The log begins anew; the watchdog of an update that is under way goes on
      running until the first request detaches it. */
  function Start(e: Env, previous: Ota, cfg: Config, updaterPresent: bool): Ota
    requires ValidConfig(cfg) && TotalChunks(cfg.fwSize, cfg.chunkSize) >= 1
  {
    var s := previous.(cfg := cfg, callbackSet := true, log := [],
                       total := TotalChunks(cfg.fwSize, cfg.chunkSize));
    if !updaterPresent then HandleFailure(e, s, RetryNothing) else RequestFirst(e, s)
  }

  /** Stop_Firmware_Update. */
  function Stop(e: Env, s: Ota): (t: Ota)
    ensures t.cfg == s.cfg && t.total == s.total && s.log <= t.log
  {
    HandleFailure(e, Log(Log(s, Detach), UpdaterReset), RetryNothing).(callbackSet := false)
  }

  /** Process_Firmware_Packet. */
  function Process(e: Env, s: Ota, chunk: nat, payload: Bytes): (t: Ota)
    requires s.total >= 1
    ensures t.cfg == s.cfg && t.total == s.total && s.log <= t.log
  {
    var s0 := Log(s, Received(chunk, payload));
    if chunk != s.requested then s0
    else
      var s1 := Log(s0, Detach);
      if chunk == 0 then
        var ok := Ask(e, s1).ok;
        var s2 := Log(s1, UpdaterBegin(s.cfg.fwSize, ok));
        if !ok then HandleFailure(e, s2, RetryUpdate) else Store(e, s2, payload)
      else
        Store(e, s1, payload)
  }

  /** The rest of Process_Firmware_Packet, from the write on. */
  function Store(e: Env, s: Ota, payload: Bytes): (t: Ota)
    requires s.total >= 1
    ensures t.cfg == s.cfg && t.total == s.total && s.log <= t.log
  {
    var written := Ask(e, s).written;
    var s1 := Log(s, UpdaterWrite(payload, written));
    if written != |payload| then HandleFailure(e, s1, RetryUpdate)
    else
      var ok := Ask(e, s1).ok;
      var s2 := Log(s1, HashUpdate(payload, ok));
      if !ok then HandleFailure(e, s2, RetryUpdate) else Accept(e, s2, payload)
  }

  /** The rest of that, once a chunk has been written and hashed. */
  function Accept(e: Env, s: Ota, payload: Bytes): (t: Ota)
    requires s.total >= 1
    ensures t.cfg == s.cfg && t.total == s.total && s.log <= t.log
  {
    var stored := s.(hashed := s.hashed + payload, requested := s.requested + 1);
    if !s.callbackSet then Log(stored, NullCall)
    else
      var abort := Ask(e, stored).abort;
      var told := Log(stored, Progress(stored.requested, s.total));
      if abort then Stop(e, told)
      else RequestNext(e, told.(retries := s.cfg.chunkRetries))
  }

  /** Handle_Request_Timeout; the one-shot timer has fired. */
  function TimeOut(e: Env, s: Ota): (t: Ota)
    requires s.total >= 1
    ensures t.cfg == s.cfg && t.total == s.total && s.log <= t.log
  {
    HandleFailure(e, Log(s, Fired), RetryChunk)
  }

  function React(e: Env, s: Ota, event: Event): (t: Ota)
    requires s.total >= 1
    ensures t.cfg == s.cfg && t.total == s.total && s.log <= t.log
  {
    match event
    case Packet(chunk, payload) => Process(e, s, chunk, payload)
    case Timeout => TimeOut(e, s)
    case Abort => Stop(e, s)
  }
}
