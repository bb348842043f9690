/** The lifecycle of a rig's refinery over its persisted record
    (internal/refinery/manager.go, loadState, saveState, Status, Start, Stop),
    as functions from the state file before a call to the call's reply, the
    state file after it, and the pid an interrupt went to. Whether a process
    exists is the set `live`; the caller's own pid is `self`; the clock is
    `now`; whether writing the file succeeds is `writeOk`. */
module Lifecycle {
  import opened Wrappers
  import opened RefineryTypes

  /** What the state file holds: nothing, something unreadable, something
      that is not a record, or a record. */
  datatype StateFile = Missing | Unreadable | Undecodable | Stored(record: Refinery)

  /** The errors the lifecycle reports. */
  datatype Error = NotRunning | AlreadyRunning | ReadFailed | DecodeFailed | WriteFailed

  /** A call's reply, the state file afterwards and the pid interrupted, if any. */
  datatype Effect<T> = Effect(reply: T, file: StateFile, interrupted: Option<int>)

  /** Start either returns, with or without an error, or — in foreground
      mode, after persisting — enters the processing loop and never returns. */
  datatype StartReply = Returned(err: Option<Error>) | Serving

  /** The record loadState makes up for a rig that has no state file. */
  function DefaultRecord(rig: string): Refinery
  {
    Refinery(rig, Stopped, 0, None, None, None, ZeroStats)
  }

  /** loadState: a missing file is a stopped record for the rig, a record is
      itself, anything else is an error. */
  function Load(rig: string, f: StateFile): (r: Result<Refinery, Error>)
    ensures r.Ok? <==> f.Missing? || f.Stored?
    ensures f.Missing? ==>
              && r.value.rigName == rig && r.value.state == Stopped && r.value.pid == 0
              && r.value.startedAt.None? && r.value.currentMR.None?
              && r.value.lastMergeAt.None? && r.value.stats == ZeroStats
    ensures f.Stored? ==> r.value == f.record
    ensures f.Unreadable? ==> r == Err(ReadFailed)
    ensures f.Undecodable? ==> r == Err(DecodeFailed)
  {
    match f
    case Missing => Ok(DefaultRecord(rig))
    case Unreadable => Err(ReadFailed)
    case Undecodable => Err(DecodeFailed)
    case Stored(ref) => Ok(ref)
  }

  /** saveState: a full overwrite when the write succeeds, so that loading
      afterwards gives back exactly the saved record; a failed write leaves
      the file as it was. */
  function Save(f: StateFile, ref: Refinery, writeOk: bool): (g: StateFile)
    ensures writeOk ==> forall rig :: Load(rig, g) == Ok(ref)
    ensures !writeOk ==> g == f
  {
    if writeOk then Stored(ref) else f
  }

  /** The record names a running process that still exists. */
  predicate OwnerAlive(ref: Refinery, live: set<int>)
  {
    ref.state == Running && ref.pid > 0 && ref.pid in live
  }

  /** The record names a running process that no longer exists. */
  predicate OwnerGone(ref: Refinery, live: set<int>)
  {
    ref.state == Running && ref.pid > 0 && ref.pid !in live
  }

  /** Status: a record whose owner is gone is reported and persisted as
      stopped without a pid, all else unchanged (a failed write is ignored);
      any other record is reported as it is and nothing is written. */
  function StatusStep(rig: string, f: StateFile, live: set<int>, writeOk: bool)
    : (e: Effect<Result<Refinery, Error>>)
    ensures e.interrupted.None?
    ensures Load(rig, f).Err? ==> e.reply == Err(Load(rig, f).error) && e.file == f
    ensures Load(rig, f).Ok? && OwnerGone(Load(rig, f).value, live) ==>
              && e.reply == Ok(Load(rig, f).value.(state := Stopped, pid := 0))
              && e.file == (if writeOk then Stored(e.reply.value) else f)
    ensures Load(rig, f).Ok? && !OwnerGone(Load(rig, f).value, live) ==>
              e.reply == Load(rig, f) && e.file == f
  {
    match Load(rig, f)
    case Err(err) => Effect(Err(err), f, None)
    case Ok(ref) =>
      if ref.state == Running && ref.pid > 0 && ref.pid !in live then
        var healed := ref.(state := Stopped, pid := 0);
        Effect(Ok(healed), Save(f, healed, writeOk), None)
      else
        Effect(Ok(ref), f, None)
  }

  /** Start: AlreadyRunning exactly when the record names a running owner
      that exists, and then nothing is written; otherwise the record is
      persisted as running since `now` under the caller's pid, all else
      unchanged, and the call returns (background) or serves (foreground). */
  function StartStep(rig: string, f: StateFile, live: set<int>, self: int, now: int,
                     foreground: bool, writeOk: bool): (e: Effect<StartReply>)
    ensures e.interrupted.None?
    ensures e.reply == Returned(Some(AlreadyRunning)) <==>
              Load(rig, f).Ok? && OwnerAlive(Load(rig, f).value, live)
    ensures Load(rig, f).Err? ==> e.reply == Returned(Some(Load(rig, f).error)) && e.file == f
    ensures Load(rig, f).Ok? && OwnerAlive(Load(rig, f).value, live) ==> e.file == f
    ensures Load(rig, f).Ok? && !OwnerAlive(Load(rig, f).value, live) ==>
              var started := Load(rig, f).value.(state := Running, startedAt := Some(now), pid := self);
              && (writeOk ==> e.file == Stored(started) && e.reply == (if foreground then Serving else Returned(None)))
              && (!writeOk ==> e.file == f && e.reply == Returned(Some(WriteFailed)))
  {
    match Load(rig, f)
    case Err(err) => Effect(Returned(Some(err)), f, None)
    case Ok(ref) =>
      if ref.state == Running && ref.pid > 0 && ref.pid in live then
        Effect(Returned(Some(AlreadyRunning)), f, None)
      else
        var started := ref.(state := Running, startedAt := Some(now), pid := self);
        if !writeOk then Effect(Returned(Some(WriteFailed)), f, None)
        else if foreground then Effect(Serving, Stored(started), None)
        else Effect(Returned(None), Stored(started), None)
  }

  /** Stop: NotRunning exactly when the record is not running (paused
      included), and then nothing is written and nobody is interrupted;
      otherwise a recorded pid other than the caller's is interrupted and the
      record is persisted as stopped without a pid, all else unchanged. */
  function StopStep(rig: string, f: StateFile, self: int, writeOk: bool): (e: Effect<Option<Error>>)
    ensures e.reply == Some(NotRunning) <==> Load(rig, f).Ok? && Load(rig, f).value.state != Running
    ensures e.interrupted != Some(self)
    ensures Load(rig, f).Err? ==> e.reply == Some(Load(rig, f).error) && e.file == f && e.interrupted.None?
    ensures Load(rig, f).Ok? && Load(rig, f).value.state != Running ==> e.file == f && e.interrupted.None?
    ensures Load(rig, f).Ok? && Load(rig, f).value.state == Running ==>
              var ref := Load(rig, f).value;
              && e.interrupted == (if ref.pid > 0 && ref.pid != self then Some(ref.pid) else None)
              && (writeOk ==> e.file == Stored(ref.(state := Stopped, pid := 0)) && e.reply.None?)
              && (!writeOk ==> e.file == f && e.reply == Some(WriteFailed))
  {
    match Load(rig, f)
    case Err(err) => Effect(Some(err), f, None)
    case Ok(ref) =>
      if ref.state != Running then Effect(Some(NotRunning), f, None)
      else
        var interrupted := if ref.pid > 0 && ref.pid != self then Some(ref.pid) else None;
        var stopped := ref.(state := Stopped, pid := 0);
        if writeOk then Effect(None, Stored(stopped), interrupted)
        else Effect(Some(WriteFailed), f, interrupted)
  }

  // ----- Properties across calls -----

  /** A rig without a state file reports a stopped refinery with no pid and
      no current merge request, and refuses to stop. */
  lemma FreshRig(rig: string, live: set<int>, self: int, writeOk: bool)
    ensures StatusStep(rig, Missing, live, writeOk) == Effect(Ok(DefaultRecord(rig)), Missing, None)
    ensures StopStep(rig, Missing, self, writeOk) == Effect(Some(NotRunning), Missing, None)
  {
  }

  /** Start, then Start again while the first caller is alive: AlreadyRunning,
      and the file is left as the first Start wrote it. */
  lemma StartTwiceRejected(rig: string, f: StateFile, live: set<int>, self: int,
                           now1: int, now2: int, foreground: bool, writeOk: bool)
    requires self > 0 && self in live
    requires StartStep(rig, f, live, self, now1, false, true).reply == Returned(None)
    ensures var first := StartStep(rig, f, live, self, now1, false, true);
            StartStep(rig, first.file, live, self, now2, foreground, writeOk)
              == Effect(Returned(Some(AlreadyRunning)), first.file, None)
  {
    var first := StartStep(rig, f, live, self, now1, false, true);
    assert first.file.Stored? && first.file.record.pid == self;
  }

  /** Start, Stop (from any process), Start: the second Start succeeds and
      stamps the new start time. */
  lemma StartStopStart(rig: string, f: StateFile, live: set<int>, self: int, stopper: int,
                       now1: int, now2: int)
    requires StartStep(rig, f, live, self, now1, false, true).reply == Returned(None)
    ensures var first := StartStep(rig, f, live, self, now1, false, true);
            var stop := StopStep(rig, first.file, stopper, true);
            var second := StartStep(rig, stop.file, live, self, now2, false, true);
            && stop.reply.None?
            && stop.interrupted == (if self > 0 && self != stopper then Some(self) else None)
            && second.reply == Returned(None)
            && second.file.Stored?
            && second.file.record.state == Running
            && second.file.record.startedAt == Some(now2)
            && second.file.record.pid == self
  {
    var first := StartStep(rig, f, live, self, now1, false, true);
    assert first.file.Stored? && first.file.record.state == Running;
    var stop := StopStep(rig, first.file, stopper, true);
    assert stop.file.Stored? && stop.file.record.state == Stopped;
  }

  /** The self-heal is durable: after a successful heal, reading the file
      gives the healed record, and Status again reports it and writes nothing. */
  lemma StatusIdempotent(rig: string, f: StateFile, live: set<int>, writeOk: bool)
    requires StatusStep(rig, f, live, true).reply.Ok?
    ensures var e := StatusStep(rig, f, live, true);
            && Load(rig, e.file) == e.reply
            && StatusStep(rig, e.file, live, writeOk) == Effect(e.reply, e.file, None)
  {
    var e := StatusStep(rig, f, live, true);
    if OwnerGone(Load(rig, f).value, live) {
      assert e.file == Stored(e.reply.value);
    }
  }

  /** The record invariant: a stopped refinery has no pid, a running one has
      a pid. */
  predicate Consistent(f: StateFile)
  {
    f.Stored? ==>
      && (f.record.state == Stopped ==> f.record.pid == 0)
      && (f.record.state == Running ==> f.record.pid > 0)
  }

  /** Status, Start (by a process with a real pid) and Stop keep the invariant. */
  lemma OperationsKeepConsistent(rig: string, f: StateFile, live: set<int>, self: int,
                                 now: int, foreground: bool, writeOk: bool)
    requires Consistent(f) && self > 0
    ensures Consistent(StatusStep(rig, f, live, writeOk).file)
    ensures Consistent(StartStep(rig, f, live, self, now, foreground, writeOk).file)
    ensures Consistent(StopStep(rig, f, self, writeOk).file)
  {
  }

  /** The parts of a record no lifecycle call changes. */
  predicate SameHistory(a: Refinery, b: Refinery)
  {
    a.rigName == b.rigName && a.currentMR == b.currentMR
    && a.lastMergeAt == b.lastMergeAt && a.stats == b.stats
  }

  /** Every write of Status, Start and Stop keeps the rig name, current merge
      request, last merge time and statistics of the record read; Status and
      Stop also keep the start time. */
  lemma OperationsKeepHistory(rig: string, f: StateFile, live: set<int>, self: int,
                              now: int, foreground: bool, writeOk: bool)
    requires Load(rig, f).Ok?
    ensures var g := StatusStep(rig, f, live, writeOk).file;
            g == f || (g.Stored? && SameHistory(Load(rig, f).value, g.record)
                       && g.record.startedAt == Load(rig, f).value.startedAt)
    ensures var g := StartStep(rig, f, live, self, now, foreground, writeOk).file;
            g == f || (g.Stored? && SameHistory(Load(rig, f).value, g.record))
    ensures var g := StopStep(rig, f, self, writeOk).file;
            g == f || (g.Stored? && SameHistory(Load(rig, f).value, g.record)
                       && g.record.startedAt == Load(rig, f).value.startedAt)
  {
  }

  // ----- processExists as written -----

  /** processExists as written calls `proc.Signal(nil)`. Go's Process.Signal
      rejects a value that is not a `syscall.Signal` ("unsupported signal
      type") before it asks the system anything, so the probe reports every
      pid as gone. */
  function ProcessExistsAsWritten(pid: int): (alive: bool)
    ensures !alive
  {
    false
  }

  /** With the probe as written, Status stops every running record with a
      positive pid, and leaves a running record without a pid (a refinery
      started in the foreground) as it is. */
  lemma StatusAsWritten(rig: string, ref: Refinery, probed: set<int>, writeOk: bool)
    requires forall p :: p in probed <==> ProcessExistsAsWritten(p)
    requires ref.state == Running
    ensures ref.pid > 0 ==>
              StatusStep(rig, Stored(ref), probed, writeOk).reply == Ok(ref.(state := Stopped, pid := 0))
    ensures ref.pid <= 0 ==>
              StatusStep(rig, Stored(ref), probed, writeOk) == Effect(Ok(ref), Stored(ref), None)
  {
    assert ref.pid !in probed;
  }

  /** With the probe as written, Start twice from the same live process
      succeeds both times: AlreadyRunning can never be reported. */
  lemma StartTwiceAsWritten(rig: string, f: StateFile, probed: set<int>, self: int,
                            now1: int, now2: int)
    requires forall p :: p in probed <==> ProcessExistsAsWritten(p)
    requires StartStep(rig, f, probed, self, now1, false, true).reply == Returned(None)
    ensures var first := StartStep(rig, f, probed, self, now1, false, true);
            StartStep(rig, first.file, probed, self, now2, false, true).reply == Returned(None)
  {
    var first := StartStep(rig, f, probed, self, now1, false, true);
    assert self !in probed;
    assert first.file.Stored?;
  }
}
