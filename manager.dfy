/** The refinery manager of one rig (internal/refinery/manager.go, Manager):
    its state file is a field the lifecycle methods read, change and write
    back; Queue reads it and the discovered branches. */
module RefineryManager {
  import opened Wrappers
  import opened RefineryTypes
  import opened Age
  import opened Branches
  import opened Lifecycle

  /** The item showing a merge request at a position, aged at `now`. */
  function ItemFor(position: int, mr: MergeRequest, now: int): QueueItem
  {
    QueueItem(position, mr, FormatAge(now - mr.createdAt))
  }

  /** The items for the pending merge requests, numbered from `first` on. */
  function Numbered(pending: seq<MergeRequest>, first: int, now: int): (items: seq<QueueItem>)
    ensures |items| == |pending|
  {
    if pending == [] then []
    else
      var n := |pending| - 1;
      Numbered(pending[..n], first, now) + [ItemFor(first + n, pending[n], now)]
  }

  /** The queue Queue builds: the current merge request, if any, then the
      pending ones numbered from 1. */
  function QueueView(current: Option<MergeRequest>, pending: seq<MergeRequest>, now: int): (items: seq<QueueItem>)
    ensures |items| == (if current.Some? then 1 else 0) + |pending|
  {
    (if current.Some? then [ItemFor(0, current.value, now)] else []) + Numbered(pending, 1, now)
  }

  /** The displayed layout: the current merge request at position 0, then
      each pending one at positions 1, 2, ... in order. */
  ghost predicate IsQueue(items: seq<QueueItem>, current: Option<MergeRequest>,
                          pending: seq<MergeRequest>, now: int)
  {
    var off := if current.Some? then 1 else 0;
    && |items| == off + |pending|
    && (current.Some? ==> items[0] == ItemFor(0, current.value, now))
    && (forall j :: 0 <= j < |pending| ==> items[off + j] == ItemFor(j + 1, pending[j], now))
  }

  /** Numbered ends with the item of the last pending merge request. */
  lemma NumberedLast(pending: seq<MergeRequest>, first: int, now: int)
    requires pending != []
    ensures var n := |pending| - 1;
            && Numbered(pending, first, now)[..n] == Numbered(pending[..n], first, now)
            && Numbered(pending, first, now)[n] == ItemFor(first + n, pending[n], now)
  {
  }

  /** Items before the last are those of the shorter sequence. */
  lemma NumberedEarlier(pending: seq<MergeRequest>, first: int, now: int, j: nat)
    requires j < |pending| - 1
    ensures Numbered(pending, first, now)[j] == Numbered(pending[..|pending| - 1], first, now)[j]
  {
    var n := |pending| - 1;
    NumberedLast(pending, first, now);
    assert Numbered(pending, first, now)[j] == Numbered(pending, first, now)[..n][j];
  }

  /** The j-th item is the j-th pending merge request at position first + j. */
  lemma {:induction false} NumberedAt(pending: seq<MergeRequest>, first: int, now: int, j: nat)
    requires j < |pending|
    ensures Numbered(pending, first, now)[j] == ItemFor(first + j, pending[j], now)
    decreases |pending|
  {
    var n := |pending| - 1;
    if j < n {
      NumberedEarlier(pending, first, now, j);
      NumberedAt(pending[..n], first, now, j);
      assert pending[..n][j] == pending[j];
    } else {
      NumberedLast(pending, first, now);
    }
  }

  /** QueueView has the displayed layout. */
  lemma QueueViewLayout(current: Option<MergeRequest>, pending: seq<MergeRequest>, now: int)
    ensures IsQueue(QueueView(current, pending, now), current, pending, now)
  {
    var items := QueueView(current, pending, now);
    var off := if current.Some? then 1 else 0;
    forall j | 0 <= j < |pending|
      ensures items[off + j] == ItemFor(j + 1, pending[j], now)
    {
      NumberedAt(pending, 1, now, j);
    }
  }

  /** One more pending merge request is shown after the others. */
  lemma QueueViewAppend(current: Option<MergeRequest>, pending: seq<MergeRequest>,
                        mr: MergeRequest, now: int)
    ensures QueueView(current, pending + [mr], now)
              == QueueView(current, pending, now) + [ItemFor(|pending| + 1, mr, now)]
  {
    assert (pending + [mr])[..|pending|] == pending;
  }

  /** A discovered branch that is accepted extends the queue by its merge
      request at the next position. */
  lemma QueueStepAccepted(current: Option<MergeRequest>, branches: seq<string>, i: nat,
                          now: int, mr: MergeRequest)
    requires i < |branches| && BranchToMR(branches[i], now) == Some(mr)
    ensures var accepted := AcceptedMRs(branches[..i], now);
            && |AcceptedMRs(branches[..i + 1], now)| == |accepted| + 1
            && QueueView(current, AcceptedMRs(branches[..i + 1], now), now)
                 == QueueView(current, accepted, now) + [ItemFor(|accepted| + 1, mr, now)]
  {
    var accepted := AcceptedMRs(branches[..i], now);
    AcceptedMRsStep(branches, i, now);
    assert AcceptedMRs(branches[..i + 1], now) == accepted + [mr];
    QueueViewAppend(current, accepted, mr, now);
  }

  /** A discovered branch that is rejected leaves the queue as it is. */
  lemma QueueStepRejected(current: Option<MergeRequest>, branches: seq<string>, i: nat, now: int)
    requires i < |branches| && BranchToMR(branches[i], now).None?
    ensures AcceptedMRs(branches[..i + 1], now) == AcceptedMRs(branches[..i], now)
  {
    var accepted := AcceptedMRs(branches[..i], now);
    AcceptedMRsStep(branches, i, now);
    assert accepted + [] == accepted;
  }

  /** Positions run 0, 1, 2, ... with a current merge request and 1, 2, ...
      without one: no gaps, none repeated. */
  lemma QueuePositions(items: seq<QueueItem>, current: Option<MergeRequest>,
                       pending: seq<MergeRequest>, now: int, k: nat)
    requires IsQueue(items, current, pending, now) && k < |items|
    ensures items[k].position == if current.Some? then k else k + 1
  {
    var off := if current.Some? then 1 else 0;
    if k >= off {
      var j := k - off;
      assert items[off + j] == ItemFor(j + 1, pending[j], now);
    }
  }

  /** A current merge request and two discovered worker branches give a
      queue of three, in discovery order after the current one. */
  lemma QueueExample(current: MergeRequest, now: int)
    ensures var items := QueueView(Some(current), AcceptedMRs(["polecat/w1/iss1", "polecat/w2"], now), now);
            && |items| == 3
            && items[0].position == 0 && items[0].mr == current
            && items[1].position == 1 && items[1].mr.worker == "w1" && items[1].mr.issueID == "iss1"
            && items[2].position == 2 && items[2].mr.worker == "w2" && items[2].mr.issueID == ""
  {
    BranchWithIssueExample(now);
    BranchWithoutIssueExample(now);
    var bs := ["polecat/w1/iss1", "polecat/w2"];
    var mr1 := NewMR("polecat/w1/iss1", "w1", "iss1", now);
    var mr2 := NewMR("polecat/w2", "w2", "", now);
    assert bs[1..] == ["polecat/w2"];
    assert bs[1..][1..] == [];
    assert AcceptedMRs(bs[1..], now) == [mr2] + AcceptedMRs(bs[1..][1..], now);
    assert AcceptedMRs(bs, now) == [mr1] + AcceptedMRs(bs[1..], now);
    var pending := AcceptedMRs(bs, now);
    assert pending == [mr1, mr2];
    var items := QueueView(Some(current), pending, now);
    NumberedAt(pending, 1, now, 0);
    NumberedAt(pending, 1, now, 1);
    assert items[1] == ItemFor(1, mr1, now);
    assert items[2] == ItemFor(2, mr2, now);
  }

  /** A discovered branch equal to the current merge request's branch is
      listed again after it: the queue does not compare the two. */
  lemma CurrentNotDeduplicated(current: MergeRequest, now: int)
    requires BranchToMR(current.branch, now).Some?
    ensures var items := QueueView(Some(current), AcceptedMRs([current.branch], now), now);
            && |items| == 2
            && items[0].mr == current
            && items[1].position == 1 && items[1].mr.branch == current.branch
  {
    var mr := BranchToMR(current.branch, now).value;
    assert [current.branch][1..] == [];
    assert AcceptedMRs([current.branch], now) == [mr];
    NumberedAt([mr], 1, now, 0);
  }

  /** The items Queue lists: the current merge request at position 0, then
      one item per accepted branch, counting positions up from 1. */
  method BuildQueue(current: Option<MergeRequest>, branches: seq<string>, now: int)
    returns (items: seq<QueueItem>)
    ensures items == QueueView(current, AcceptedMRs(branches, now), now)
  {
    items := [];
    var pos := 1;
    if current.Some? {
      items := items + [ItemFor(0, current.value, now)];
    }
    assert branches[..0] == [];
    for i := 0 to |branches|
      invariant pos == |AcceptedMRs(branches[..i], now)| + 1
      invariant items == QueueView(current, AcceptedMRs(branches[..i], now), now)
    {
      var mr := BranchToMR(branches[i], now);
      if mr.Some? {
        QueueStepAccepted(current, branches, i, now, mr.value);
        items := items + [ItemFor(pos, mr.value, now)];
        pos := pos + 1;
      } else {
        QueueStepRejected(current, branches, i, now);
      }
    }
    assert branches[..|branches|] == branches;
  }

  class Manager {
    /** The name of the rig this refinery serves. */
    const rigName: string
    /** The rig's state file. */
    var file: StateFile
    /** The pids interrupted by Stop, in order. */
    ghost var interrupts: seq<int>

    constructor (rigName: string, file: StateFile)
      ensures this.rigName == rigName && this.file == file && interrupts == []
    {
      this.rigName := rigName;
      this.file := file;
      interrupts := [];
    }

    /** loadState: read and decode the state file. */
    method LoadState() returns (r: Result<Refinery, Error>)
      ensures r == Load(rigName, file)
    {
      match file {
        case Missing =>
          r := Ok(DefaultRecord(rigName));
        case Unreadable =>
          r := Err(ReadFailed);
        case Undecodable =>
          r := Err(DecodeFailed);
        case Stored(ref) =>
          r := Ok(ref);
      }
    }

    /** saveState: overwrite the state file with `ref`, unless writing fails. */
    method SaveState(ref: Refinery, writeOk: bool) returns (err: Option<Error>)
      modifies this`file
      ensures file == Save(old(file), ref, writeOk)
      ensures err == if writeOk then None else Some(WriteFailed)
    {
      if !writeOk {
        return Some(WriteFailed);
      }
      file := Stored(ref);
      err := None;
    }

    /** Status, with its self-healing read. */
    method Status(live: set<int>, writeOk: bool) returns (r: Result<Refinery, Error>)
      modifies this`file
      ensures Effect(r, file, None) == StatusStep(rigName, old(file), live, writeOk)
    {
      var loaded := LoadState();
      if loaded.Err? {
        return Err(loaded.error);
      }
      var ref := loaded.value;
      if ref.state == Running && ref.pid > 0 {
        if ref.pid !in live {
          ref := ref.(state := Stopped);
          ref := ref.(pid := 0);
          var _ := SaveState(ref, writeOk);
        }
      }
      return Ok(ref);
    }

    /** Start, in the foreground or in the background. */
    method Start(foreground: bool, live: set<int>, self: int, now: int, writeOk: bool)
      returns (reply: StartReply)
      modifies this`file
      ensures Effect(reply, file, None) == StartStep(rigName, old(file), live, self, now, foreground, writeOk)
    {
      var loaded := LoadState();
      if loaded.Err? {
        return Returned(Some(loaded.error));
      }
      var ref := loaded.value;
      if ref.state == Running && ref.pid > 0 && ref.pid in live {
        return Returned(Some(AlreadyRunning));
      }
      ref := ref.(state := Running);
      ref := ref.(startedAt := Some(now));
      ref := ref.(pid := self);
      var err := SaveState(ref, writeOk);
      if err.Some? {
        return Returned(err);
      }
      if foreground {
        return Serving;
      }
      return Returned(None);
    }

    /** Stop: interrupt the recorded owner unless it is the caller, then
      persist the stopped record. */
    method Stop(self: int, writeOk: bool) returns (err: Option<Error>)
      modifies this`file, this`interrupts
      ensures var e := StopStep(rigName, old(file), self, writeOk);
              err == e.reply && file == e.file
              && interrupts == old(interrupts) + OptionToSeq(e.interrupted)
    {
      var loaded := LoadState();
      if loaded.Err? {
        return Some(loaded.error);
      }
      var ref := loaded.value;
      if ref.state != Running {
        return Some(NotRunning);
      }
      if ref.pid > 0 && ref.pid != self {
        interrupts := interrupts + [ref.pid];
      }
      ref := ref.(state := Stopped);
      ref := ref.(pid := 0);
      err := SaveState(ref, writeOk);
    }

    /** Queue: the current merge request, then the discovered worker
      branches accepted as merge requests, numbered as they are added.
      Discovery comes first, so a failed git command still reads the
      state file. */
    method Queue(git: GitOutcome, now: int) returns (r: Result<seq<QueueItem>, Error>)
      ensures Load(rigName, file).Err? ==> r == Err(Load(rigName, file).error)
      ensures Load(rigName, file).Ok? ==>
                r == Ok(QueueView(Load(rigName, file).value.currentMR,
                                  AcceptedMRs(DiscoveredBranches(git), now), now))
    {
      var branches := DiscoverWorkBranches(git);
      var loaded := LoadState();
      if loaded.Err? {
        return Err(loaded.error);
      }
      var items := BuildQueue(loaded.value.currentMR, branches, now);
      return Ok(items);
    }
  }
}
