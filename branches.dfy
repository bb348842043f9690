/** Work-branch discovery and parsing (internal/refinery/manager.go,
    discoverWorkBranches and branchToMR): the output of
    `git branch -r --list` over the remote's worker branches becomes branch
    names, and a name
    `polecat/<worker>[/<issue>]` becomes a pending merge request. */
module Branches {
  import opened Wrappers
  import opened Text
  import opened RefineryTypes

  const WorkerPrefix := "polecat/"
  const RemotePrefix := "origin/"
  const Arrow := "->"
  const DefaultTarget := "main"

  // ----- branchToMR -----

  /** The worker segment `[^/]+`: non-empty, no slash (a newline is allowed,
      as a negated class in Go's regexp matches it). */
  predicate ValidWorker(w: string)
  {
    w != [] && '/' !in w
  }

  /** The issue segment `(.+)`, or `""` when absent: `.` does not match a
      newline in Go's regexp, and `$` is the end of the text. */
  predicate ValidIssue(i: string)
  {
    '\n' !in i
  }

  /** The branch name of a worker's branch, with or without an issue. */
  function WorkBranchName(w: string, i: string): string
  {
    WorkerPrefix + w + (if i == [] then [] else "/" + i)
  }

  /** The merge request branchToMR builds for an accepted branch at time `now`. */
  function NewMR(branch: string, w: string, i: string, now: int): (mr: MergeRequest)
    ensures mr.status == Pending && ErrorOnlyWhenFailed(mr)
  {
    MergeRequest(
      id := "mr-" + w + "-" + IntToDecimal(now),
      branch := branch,
      worker := w,
      issueID := i,
      swarmID := "",
      targetBranch := DefaultTarget,
      createdAt := now,
      status := Pending,
      error := "")
  }

  /** Matches `^polecat/([^/]+)(?:/(.+))?$` and, on a match, builds the
      pending merge request; any other name gives None. Every accepted name
      is the work-branch name of a valid worker and issue, and the merge
      request carries exactly those segments. */
  function BranchToMR(branch: string, now: int): (r: Option<MergeRequest>)
    ensures r.Some? ==>
              && ValidWorker(r.value.worker)
              && ValidIssue(r.value.issueID)
              && WorkBranchName(r.value.worker, r.value.issueID) == branch
              && r.value == NewMR(branch, r.value.worker, r.value.issueID, now)
  {
    if !(WorkerPrefix <= branch) then None
    else
      var rest := branch[|WorkerPrefix|..];
      var k := IndexOf(rest, '/');
      var worker := rest[..k];
      if worker == [] then None
      else if k == |rest| then
        WorkerOnlyName(branch);
        Some(NewMR(branch, worker, "", now))
      else
        var issue := rest[k + 1..];
        if issue == [] || '\n' in issue then None
        else
          WorkerIssueName(branch, k);
          Some(NewMR(branch, worker, issue, now))
  }

  /** A name with the prefix and no further slash is the worker's own branch. */
  lemma WorkerOnlyName(branch: string)
    requires WorkerPrefix <= branch
    ensures WorkBranchName(branch[|WorkerPrefix|..], []) == branch
  {
    var rest := branch[|WorkerPrefix|..];
    assert WorkerPrefix + rest == branch;
    assert WorkerPrefix + rest + [] == WorkerPrefix + rest;
  }

  /** A name with the prefix splits at a slash into worker and issue. */
  lemma WorkerIssueName(branch: string, k: nat)
    requires WorkerPrefix <= branch
    requires k + 1 < |branch| - |WorkerPrefix| && branch[|WorkerPrefix|..][k] == '/'
    ensures var rest := branch[|WorkerPrefix|..];
            WorkBranchName(rest[..k], rest[k + 1..]) == branch
  {
    var rest := branch[|WorkerPrefix|..];
    var w := rest[..k];
    var i := rest[k + 1..];
    assert rest == w + "/" + i;
    assert WorkerPrefix + rest == branch;
    assert WorkerPrefix + w + ("/" + i) == WorkerPrefix + (w + "/" + i);
  }

  /** Every valid worker and issue is accepted, with exactly those segments. */
  lemma BranchToMRComplete(w: string, i: string, now: int)
    requires ValidWorker(w) && ValidIssue(i)
    ensures BranchToMR(WorkBranchName(w, i), now) == Some(NewMR(WorkBranchName(w, i), w, i, now))
  {
    var b := WorkBranchName(w, i);
    var tail := if i == [] then [] else "/" + i;
    assert b == WorkerPrefix + (w + tail);
    assert WorkerPrefix <= b;
    var rest := b[|WorkerPrefix|..];
    assert rest == w + tail;
    IndexOfSkip(w, tail, '/');
    var k := IndexOf(rest, '/');
    if i == [] {
      assert rest == w + [];
      assert k == |w| == |rest|;
      assert rest[..k] == w;
    } else {
      assert tail[0] == '/';
      assert k == |w|;
      assert rest[..k] == w;
      assert rest[k + 1..] == i;
    }
  }

  /** A name is rejected exactly when it splits into no valid worker and issue. */
  lemma BranchToMRRejects(b: string, now: int)
    ensures BranchToMR(b, now).None? <==>
              !exists w, i :: ValidWorker(w) && ValidIssue(i) && WorkBranchName(w, i) == b
  {
    if exists w, i :: ValidWorker(w) && ValidIssue(i) && WorkBranchName(w, i) == b {
      var w, i :| ValidWorker(w) && ValidIssue(i) && WorkBranchName(w, i) == b;
      BranchToMRComplete(w, i, now);
    }
  }

  /** A name has at most one reading as worker and issue. */
  lemma WorkBranchNameInjective(w1: string, i1: string, w2: string, i2: string)
    requires ValidWorker(w1) && ValidIssue(i1) && ValidWorker(w2) && ValidIssue(i2)
    requires WorkBranchName(w1, i1) == WorkBranchName(w2, i2)
    ensures w1 == w2 && i1 == i2
  {
    BranchToMRComplete(w1, i1, 0);
    BranchToMRComplete(w2, i2, 0);
  }

  /** A worker branch with an issue. */
  lemma BranchWithIssueExample(now: int)
    ensures BranchToMR("polecat/w1/iss1", now) == Some(NewMR("polecat/w1/iss1", "w1", "iss1", now))
  {
    assert WorkBranchName("w1", "iss1") == "polecat/w1/iss1";
    BranchToMRComplete("w1", "iss1", now);
  }

  /** A worker branch without an issue: the issue is empty. */
  lemma BranchWithoutIssueExample(now: int)
    ensures BranchToMR("polecat/w2", now) == Some(NewMR("polecat/w2", "w2", "", now))
  {
    assert WorkBranchName("w2", "") == "polecat/w2";
    BranchToMRComplete("w2", "", now);
  }

  /** The issue segment runs to the end of the name, slashes included. */
  lemma IssueWithSlashExample(now: int)
    ensures BranchToMR("polecat/Toast/gt-abc/x", now)
              == Some(NewMR("polecat/Toast/gt-abc/x", "Toast", "gt-abc/x", now))
  {
    assert WorkBranchName("Toast", "gt-abc/x") == "polecat/Toast/gt-abc/x";
    BranchToMRComplete("Toast", "gt-abc/x", now);
  }

  /** Names outside the convention, or with an empty segment, are rejected. */
  lemma BranchToMRRejectsExamples(now: int)
    ensures BranchToMR("not-a-worker-branch", now).None?
    ensures BranchToMR("polecat/", now).None?
    ensures BranchToMR("polecat/w1/", now).None?
    ensures BranchToMR("polecat//iss1", now).None?
  {
    assert "not-a-worker-branch"[0] != WorkerPrefix[0];
    assert "polecat/w1/"[|WorkerPrefix|..] == "w1" + "/";
    IndexOfSkip("w1", "/", '/');
    assert ("w1" + "/")[3..] == [];
    assert "polecat//iss1"[|WorkerPrefix|..] == "/iss1";
  }

  // ----- discoverWorkBranches, the parsing of git's output -----

  /** A line of output is kept when, trimmed, it is non-empty and is not a
      symbolic ref such as `origin/HEAD -> origin/main`. */
  predicate KeepsLine(line: string)
    ensures KeepsLine(line) ==> !AllSpace(line) && !Contains(line, Arrow)
  {
    TrimSpaceEmpty(line);
    ArrowSurvivesTrim(line);
    var b := TrimSpace(line);
    b != [] && !Contains(b, Arrow)
  }

  /** The branch name a kept line contributes: trimmed, one `origin/` removed. */
  function LineEntry(line: string): (entry: string)
    ensures TrimSpace(line) == entry || TrimSpace(line) == RemotePrefix + entry
  {
    TrimPrefix(TrimSpace(line), RemotePrefix)
  }

  /** What one line contributes: its entry if it is kept, nothing otherwise. */
  function LineContribution(line: string): (r: seq<string>)
    ensures |r| <= 1
  {
    if KeepsLine(line) then [LineEntry(line)] else []
  }

  /** The entries of the kept lines, in order. */
  function BranchEntries(lines: seq<string>): (r: seq<string>)
    ensures |r| <= |lines|
  {
    if lines == [] then [] else LineContribution(lines[0]) + BranchEntries(lines[1..])
  }

  /** The first line of a non-empty block is parsed first, whatever follows. */
  lemma BranchEntriesFirst(a: seq<string>, b: seq<string>)
    requires a != []
    ensures BranchEntries(a + b) == LineContribution(a[0]) + BranchEntries(a[1..] + b)
  {
    var c := a + b;
    assert c[0] == a[0] && c[1..] == a[1..] + b;
  }

  /** Parsing distributes over concatenation, so the order of lines is kept. */
  lemma {:induction false} BranchEntriesAppend(a: seq<string>, b: seq<string>)
    ensures BranchEntries(a + b) == BranchEntries(a) + BranchEntries(b)
  {
    if a == [] {
      assert a + b == b;
    } else {
      BranchEntriesFirst(a, b);
      BranchEntriesAppend(a[1..], b);
      calc {
        BranchEntries(a + b);
        LineContribution(a[0]) + BranchEntries(a[1..] + b);
        LineContribution(a[0]) + (BranchEntries(a[1..]) + BranchEntries(b));
        (LineContribution(a[0]) + BranchEntries(a[1..])) + BranchEntries(b);
      }
    }
  }

  /** Every entry comes from a kept line, at an index no smaller than its own. */
  lemma {:induction false} BranchEntryOrigin(lines: seq<string>, k: nat) returns (j: nat)
    requires k < |BranchEntries(lines)|
    ensures k <= j < |lines|
    ensures KeepsLine(lines[j]) && BranchEntries(lines)[k] == LineEntry(lines[j])
  {
    var head := LineContribution(lines[0]);
    if k < |head| {
      j := 0;
    } else {
      var j' := BranchEntryOrigin(lines[1..], k - |head|);
      j := j' + 1;
    }
  }

  /** An entry never contains `->`, and never a newline when its line had none. */
  lemma LineEntryClean(line: string)
    requires KeepsLine(line)
    ensures !Contains(LineEntry(line), Arrow)
    ensures '\n' !in line ==> '\n' !in LineEntry(line)
  {
    var t := TrimSpace(line);
    var k := if RemotePrefix <= t then |RemotePrefix| else 0;
    assert LineEntry(line) == t[k..];
    NotContainsSuffix(t, Arrow, k);
    if '\n' in t[k..] {
      TrimSpaceChars(line, '\n');
    }
  }

  /** What the git command produced: a failure, or its standard output. */
  datatype GitOutcome = GitFailed | GitOk(stdout: string)

  /** The branch names discovered from a git outcome; a failed command gives
      none, and it is not an error. */
  function DiscoveredBranches(git: GitOutcome): (names: seq<string>)
    ensures git.GitFailed? ==> names == []
  {
    match git
    case GitFailed => []
    case GitOk(out) => BranchEntries(Split(out, '\n'))
  }

  /** Every discovered name is free of newlines and of `->`. */
  lemma DiscoveredBranchesClean(git: GitOutcome)
    ensures forall b :: b in DiscoveredBranches(git) ==> '\n' !in b && !Contains(b, Arrow)
  {
    if git.GitOk? {
      var lines := Split(git.stdout, '\n');
      forall b | b in DiscoveredBranches(git)
        ensures '\n' !in b && !Contains(b, Arrow)
      {
        var k :| 0 <= k < |BranchEntries(lines)| && BranchEntries(lines)[k] == b;
        var j := BranchEntryOrigin(lines, k);
        LineEntryClean(lines[j]);
      }
    }
  }

  /** A line `<padding>origin/<name>` contributes `<name>`, whatever the
      indentation, when the name does not end in whitespace, and it is kept
      when the name has no `->` (KeepsLine drops every line containing one). */
  lemma RemoteLineEntry(pad: string, name: string)
    requires AllSpace(pad)
    requires name != [] && !IsSpace(name[|name| - 1])
    ensures !Contains(name, Arrow) ==> KeepsLine(pad + RemotePrefix + name)
    ensures LineEntry(pad + RemotePrefix + name) == name
  {
    var line := pad + RemotePrefix + name;
    var t := RemotePrefix + name;
    RemoteLineTrim(pad, name);
    RemoteEntry(line, name);
    if !Contains(name, Arrow) {
      RemoteNameArrow(name);
      KeptWhenTrimmed(line, t);
    }
  }

  /** A line that trims to `origin/<name>` contributes `<name>`. */
  lemma RemoteEntry(line: string, name: string)
    requires TrimSpace(line) == RemotePrefix + name
    ensures LineEntry(line) == name
  {
    assert (RemotePrefix + name)[|RemotePrefix|..] == name;
  }

  /** A line whose trimmed text is non-empty and arrow-free is kept. */
  lemma KeptWhenTrimmed(line: string, t: string)
    requires TrimSpace(line) == t && t != [] && !Contains(t, Arrow)
    ensures KeepsLine(line)
  {
  }

  /** Trimming such a line leaves `origin/<name>`. */
  lemma RemoteLineTrim(pad: string, name: string)
    requires AllSpace(pad)
    requires name != [] && !IsSpace(name[|name| - 1])
    ensures TrimSpace(pad + RemotePrefix + name) == RemotePrefix + name
  {
    var t := RemotePrefix + name;
    assert pad + RemotePrefix + name == pad + t + [];
    assert t[|t| - 1] == name[|name| - 1];
    TrimSpacePadded(pad, t, []);
  }

  /** The remote prefix neither creates nor hides an arrow. */
  lemma RemoteNameArrow(name: string)
    ensures Contains(RemotePrefix + name, Arrow) <==> Contains(name, Arrow)
  {
    assert Arrow[0] == '-' && '-' !in RemotePrefix;
    ContainsAfterPrefix(RemotePrefix, name, Arrow);
  }

  /** A name without `>` cannot contain an arrow. */
  lemma {:induction false} NoArrowWithoutGreater(s: string)
    requires '>' !in s
    ensures !Contains(s, Arrow)
    decreases |s|
  {
    if s != [] {
      assert |s| >= 2 ==> s[1] != Arrow[1];
      NoArrowWithoutGreater(s[1..]);
    }
  }

  /** A worker's branch as `git branch -r` lists it, indented and under
      `origin/`, survives the parse as its own name, dashes and all
      (`polecat/Toast/gt-abc`), as long as it has no `>` and does not end
      in whitespace. */
  lemma WorkBranchLineKept(pad: string, w: string, i: string)
    requires AllSpace(pad) && ValidWorker(w)
    requires '>' !in w && '>' !in i
    requires var name := WorkBranchName(w, i); !IsSpace(name[|name| - 1])
    ensures KeepsLine(pad + RemotePrefix + WorkBranchName(w, i))
    ensures LineEntry(pad + RemotePrefix + WorkBranchName(w, i)) == WorkBranchName(w, i)
  {
    var name := WorkBranchName(w, i);
    assert '>' !in name;
    NoArrowWithoutGreater(name);
    RemoteLineEntry(pad, name);
  }

  /** `origin/` alone is kept, and its entry is the empty name (which
      BranchToMR then rejects). */
  lemma BareRemotePrefix(pad: string)
    requires AllSpace(pad)
    ensures KeepsLine(pad + RemotePrefix) && LineEntry(pad + RemotePrefix) == ""
  {
    assert pad + RemotePrefix == pad + RemotePrefix + [];
    TrimSpacePadded(pad, RemotePrefix, []);
    NotContainsFirst(RemotePrefix, Arrow);
  }

  /** Trimming never removes an arrow: both its characters are not whitespace,
      so they lie between the leading and the trailing whitespace. */
  lemma ArrowSurvivesTrim(line: string)
    ensures Contains(line, Arrow) ==> Contains(TrimSpace(line), Arrow)
  {
    if Contains(line, Arrow) {
      var i := ContainsWitness(line, Arrow);
      assert !IsSpace(line[i]) && !IsSpace(line[i + 1]) by {
        assert line[i..i + 2] == Arrow;
        assert line[i..i + 2][0] == line[i] && line[i..i + 2][1] == line[i + 1];
      }
      var a := LeadingSpaces(line);
      var e := TrailingStart(line);
      LeadingSpacesBound(line, i);
      NonSpaceBeforeTrailingStart(line, i + 1);
      var b := TrimSpace(line);
      assert b == line[a..e];
      SliceOfSlice(line, a, e, i - a, i - a + 2);
      ContainsAt(b, Arrow, i - a);
    }
  }

  /** An arrow in the trimmed text is an arrow in the line. */
  lemma TrimmedArrowInLine(line: string)
    ensures Contains(TrimSpace(line), Arrow) ==> Contains(line, Arrow)
  {
    var b := TrimSpace(line);
    if Contains(b, Arrow) {
      var a := LeadingSpaces(line);
      assert a < |line|;
      NonSpaceBeforeTrailingStart(line, a);
      var e := TrailingStart(line);
      assert b == line[a..e];
      var i := ContainsWitness(b, Arrow);
      SliceOfSlice(line, a, e, i, i + 2);
      ContainsAt(line, Arrow, a + i);
    }
  }

  /** The filter on raw lines, both ways: a line is kept exactly when it is
      not all whitespace and contains no `->`. */
  lemma KeepsLineExactly(line: string)
    ensures KeepsLine(line) <==> !AllSpace(line) && !Contains(line, Arrow)
  {
    TrimSpaceEmpty(line);
    TrimmedArrowInLine(line);
  }

  /** The symbolic ref line `git branch -r` prints for the remote HEAD. */
  lemma HeadLineDropped()
    ensures !KeepsLine("  origin/HEAD -> origin/main")
  {
    var line := "  origin/HEAD -> origin/main";
    assert line[14..16] == Arrow;
    ContainsAt(line, Arrow, 14);
  }

  /** One more line contributes what LineContribution says. */
  lemma BranchEntriesStep(lines: seq<string>, i: nat)
    requires i < |lines|
    ensures BranchEntries(lines[..i + 1]) == BranchEntries(lines[..i]) + LineContribution(lines[i])
  {
    assert lines[..i + 1] == lines[..i] + [lines[i]];
    BranchEntriesAppend(lines[..i], [lines[i]]);
    assert [lines[i]][1..] == [];
  }

  /** A kept line adds its entry. */
  lemma BranchEntriesKept(lines: seq<string>, i: nat)
    requires i < |lines| && KeepsLine(lines[i])
    ensures BranchEntries(lines[..i + 1]) == BranchEntries(lines[..i]) + [LineEntry(lines[i])]
  {
    BranchEntriesStep(lines, i);
  }

  /** A dropped line adds nothing. */
  lemma BranchEntriesDropped(lines: seq<string>, i: nat)
    requires i < |lines| && !KeepsLine(lines[i])
    ensures BranchEntries(lines[..i + 1]) == BranchEntries(lines[..i])
  {
    BranchEntriesStep(lines, i);
    assert BranchEntries(lines[..i]) + [] == BranchEntries(lines[..i]);
  }

  /** The loop of discoverWorkBranches: trim each line, skip the empty ones and
      the symbolic refs, strip one `origin/`, append. */
  method DiscoverWorkBranches(git: GitOutcome) returns (branches: seq<string>)
    ensures branches == DiscoveredBranches(git)
    ensures git.GitFailed? ==> branches == []
  {
    if git.GitFailed? {
      return [];
    }
    var lines := Split(git.stdout, '\n');
    branches := [];
    for i := 0 to |lines|
      invariant branches == BranchEntries(lines[..i])
    {
      var branch := TrimSpace(lines[i]);
      if branch != [] && !Contains(branch, Arrow) {
        BranchEntriesKept(lines, i);
        branch := TrimPrefix(branch, RemotePrefix);
        branches := branches + [branch];
      } else {
        BranchEntriesDropped(lines, i);
      }
    }
    assert lines[..|lines|] == lines;
  }

  // ----- The candidates a queue shows -----

  /** The merge requests of the accepted branches, in order; rejected names
      contribute nothing. Every one is pending, created at `now`, without
      error detail. */
  function AcceptedMRs(branches: seq<string>, now: int): (mrs: seq<MergeRequest>)
    ensures |mrs| <= |branches|
    ensures forall k :: 0 <= k < |mrs| ==>
              mrs[k].status == Pending && mrs[k].createdAt == now && ErrorOnlyWhenFailed(mrs[k])
  {
    if branches == [] then []
    else OptionToSeq(BranchToMR(branches[0], now)) + AcceptedMRs(branches[1..], now)
  }

  lemma {:induction false} AcceptedMRsAppend(a: seq<string>, b: seq<string>, now: int)
    ensures AcceptedMRs(a + b, now) == AcceptedMRs(a, now) + AcceptedMRs(b, now)
  {
    if a == [] {
      assert a + b == b;
    } else {
      var c := a + b;
      assert c[0] == a[0] && c[1..] == a[1..] + b;
      AcceptedMRsAppend(a[1..], b, now);
      calc {
        AcceptedMRs(c, now);
        OptionToSeq(BranchToMR(a[0], now)) + AcceptedMRs(a[1..] + b, now);
        OptionToSeq(BranchToMR(a[0], now)) + (AcceptedMRs(a[1..], now) + AcceptedMRs(b, now));
        (OptionToSeq(BranchToMR(a[0], now)) + AcceptedMRs(a[1..], now)) + AcceptedMRs(b, now);
      }
    }
  }

  /** One more branch adds its merge request, if it is accepted. */
  lemma AcceptedMRsStep(branches: seq<string>, i: nat, now: int)
    requires i < |branches|
    ensures AcceptedMRs(branches[..i + 1], now)
              == AcceptedMRs(branches[..i], now)
                 + OptionToSeq(BranchToMR(branches[i], now))
  {
    assert branches[..i + 1] == branches[..i] + [branches[i]];
    AcceptedMRsAppend(branches[..i], [branches[i]], now);
    assert [branches[i]][1..] == [];
  }

  /** The same branch discovered twice gives two merge requests: nothing is
      deduplicated. */
  lemma NoDeduplication(b: string, now: int)
    requires BranchToMR(b, now).Some?
    ensures AcceptedMRs([b, b], now) == [BranchToMR(b, now).value, BranchToMR(b, now).value]
  {
    assert [b, b][1..] == [b];
    assert [b][1..] == [];
  }
}
