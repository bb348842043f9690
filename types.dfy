/** The records and enumerations of the refinery (internal/refinery/types.go).
    Timestamps are whole seconds; an optional timestamp is an Option. */
module RefineryTypes {
  import opened Wrappers

  /** The running state of a refinery. */
  datatype State = Stopped | Running | Paused

  /** The status of a merge request. */
  datatype MRStatus = Pending | Processing | Merged | Failed | Skipped

  /** Cumulative counters; no operation of the core updates them. */
  datatype RefineryStats = RefineryStats(
    totalMerged: int,
    totalFailed: int,
    totalSkipped: int,
    todayMerged: int,
    todayFailed: int)

  const ZeroStats := RefineryStats(0, 0, 0, 0, 0)

  /** A branch waiting to be merged. */
  datatype MergeRequest = MergeRequest(
    id: string,
    branch: string,
    worker: string,
    issueID: string,
    swarmID: string,
    targetBranch: string,
    createdAt: int,
    status: MRStatus,
    error: string)

  /** The persisted record of one rig's refinery. `pid == 0` means no
      process is recorded; there is at most one current merge request. */
  datatype Refinery = Refinery(
    rigName: string,
    state: State,
    pid: int,
    startedAt: Option<int>,
    currentMR: Option<MergeRequest>,
    lastMergeAt: Option<int>,
    stats: RefineryStats)

  /** One line of the displayed queue. */
  datatype QueueItem = QueueItem(position: int, mr: MergeRequest, age: string)

  /** The string a State is stored as. */
  function StateName(s: State): string
  {
    match s
    case Stopped => "stopped"
    case Running => "running"
    case Paused => "paused"
  }

  /** The State a stored string names, if it is one of the three constants. */
  function ParseState(name: string): (r: Option<State>)
    ensures r.Some? ==> StateName(r.value) == name
  {
    if name == "stopped" then Some(Stopped)
    else if name == "running" then Some(Running)
    else if name == "paused" then Some(Paused)
    else None
  }

  /** The three names are the only ones, and each names exactly one state. */
  lemma StateNamesRoundTrip(s: State, name: string)
    ensures ParseState(StateName(s)) == Some(s)
    ensures ParseState(name).None? <==> name !in {"stopped", "running", "paused"}
  {
  }

  /** The string an MRStatus is stored as. */
  function MRStatusName(s: MRStatus): string
  {
    match s
    case Pending => "pending"
    case Processing => "processing"
    case Merged => "merged"
    case Failed => "failed"
    case Skipped => "skipped"
  }

  /** The MRStatus a stored string names, if it is one of the five constants. */
  function ParseMRStatus(name: string): (r: Option<MRStatus>)
    ensures r.Some? ==> MRStatusName(r.value) == name
  {
    if name == "pending" then Some(Pending)
    else if name == "processing" then Some(Processing)
    else if name == "merged" then Some(Merged)
    else if name == "failed" then Some(Failed)
    else if name == "skipped" then Some(Skipped)
    else None
  }

  /** The five names are the only ones, and each names exactly one status. */
  lemma MRStatusNamesRoundTrip(s: MRStatus, name: string)
    ensures ParseMRStatus(MRStatusName(s)) == Some(s)
    ensures ParseMRStatus(name).None? <==>
              name !in {"pending", "processing", "merged", "failed", "skipped"}
  {
  }

  /** The documented use of the error field: it carries detail only for a
      failed merge request. */
  predicate ErrorOnlyWhenFailed(mr: MergeRequest)
  {
    mr.error != "" ==> mr.status == Failed
  }
}
