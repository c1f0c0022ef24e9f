/**
  The wait for a submitted batch job (main.py, the loop over the job
  files): the job's status is re-read until it is "completed", or until a
  re-read status is one of the four failure statuses, in which case the job
  is skipped. The statuses the service reports are given as a sequence: the
  one returned on submission, then those returned by successive re-reads.
 */
module Polling {

  /** The statuses that end the wait with a failure. */
  predicate IsFailureStatus(status: string) {
    status == "failed" || status == "expired" || status == "cancelling" || status == "cancelled"
  }

  /** A status that ends the wait. */
  predicate Stops(status: string) {
    status == "completed" || IsFailureStatus(status)
  }

  /**
    How a wait ends: completed after `polls` re-reads, failed after `polls`
    re-reads on `status`, or still waiting when the reported statuses run out.
   */
  datatype PollOutcome = Completed(polls: nat) | Failed(polls: nat, status: string) | StillPolling

  /**
    The wait is over after exactly `n` re-reads: at once when the submitted
    status is "completed", else at the first re-read status that stops it.
   */
  ghost predicate StopsAt(created: string, retrieved: seq<string>, n: nat) {
    if created == "completed" then n == 0
    else
      && 0 < n <= |retrieved|
      && Stops(retrieved[n - 1])
      && forall k :: 0 <= k < n - 1 ==> !Stops(retrieved[k])
  }

  /** The wait from re-read number `from` on, the earlier ones having not stopped it. */
  function PollFrom(retrieved: seq<string>, from: nat): (r: PollOutcome)
    requires from <= |retrieved|
    decreases |retrieved| - from
    ensures r.Completed? ==> from < r.polls <= |retrieved| && retrieved[r.polls - 1] == "completed"
    ensures r.Failed? ==> (from < r.polls <= |retrieved| && retrieved[r.polls - 1] == r.status
                           && IsFailureStatus(r.status))
    ensures r.Completed? || r.Failed? ==> forall k :: from <= k < r.polls - 1 ==> !Stops(retrieved[k])
    ensures r.StillPolling? <==> forall k :: from <= k < |retrieved| ==> !Stops(retrieved[k])
  {
    if from == |retrieved| then StillPolling
    else
      var status := retrieved[from];
      if IsFailureStatus(status) then Failed(from + 1, status)
      else if status == "completed" then Completed(from + 1)
      else PollFrom(retrieved, from + 1)
  }

  /** How the wait for a job submitted with status `created` ends. */
  function PollOutcomeOf(created: string, retrieved: seq<string>): PollOutcome {
    if created == "completed" then Completed(0) else PollFrom(retrieved, 0)
  }

  /**
    The outcome is decided at the one point where the wait stops: "completed"
    there means completed, a failure status means failed, and no stopping
    point within the reported statuses means still waiting.
   */
  lemma PollOutcomeCorrect(created: string, retrieved: seq<string>)
    ensures var r := PollOutcomeOf(created, retrieved);
            && (r.Completed? ==> (StopsAt(created, retrieved, r.polls)
                                  && (r.polls == 0 || retrieved[r.polls - 1] == "completed")))
            && (r.Failed? ==> (StopsAt(created, retrieved, r.polls) && r.polls > 0
                               && retrieved[r.polls - 1] == r.status && IsFailureStatus(r.status)))
            && (r.StillPolling? <==> forall n: nat :: !StopsAt(created, retrieved, n))
  {
    var r := PollOutcomeOf(created, retrieved);
    if r.StillPolling? {
      forall n: nat ensures !StopsAt(created, retrieved, n) {
        if 0 < n <= |retrieved| {
          assert !Stops(retrieved[n - 1]);
        }
      }
    } else {
      assert StopsAt(created, retrieved, r.polls);
    }
  }

  /** The wait stops at one point only. */
  lemma StopsAtUnique(created: string, retrieved: seq<string>, n: nat, m: nat)
    requires StopsAt(created, retrieved, n) && StopsAt(created, retrieved, m)
    ensures n == m
  {
    if created != "completed" {
      assert Stops(retrieved[n - 1]) && Stops(retrieved[m - 1]);
    }
  }

  /**
    The polling loop: while the status is not "completed", re-read it; a
    re-read failure status sets the failure flag and leaves the loop.
   */
  method Poll(created: string, retrieved: seq<string>) returns (outcome: PollOutcome)
    ensures outcome == PollOutcomeOf(created, retrieved)
  {
    var status := created;
    var polls := 0;
    var failed := false;
    while status != "completed"
      invariant 0 <= polls <= |retrieved|
      invariant polls == 0 ==> status == created
      invariant polls > 0 ==> status == retrieved[polls - 1] && created != "completed"
      invariant !failed
      invariant polls > 0 ==> !IsFailureStatus(status)
      invariant created != "completed" && status != "completed" ==> PollFrom(retrieved, polls) == PollFrom(retrieved, 0)
      invariant polls > 0 && status == "completed" ==> PollFrom(retrieved, 0) == Completed(polls)
      decreases |retrieved| - polls
    {
      if polls == |retrieved| {
        return StillPolling;
      }
      status := retrieved[polls];
      polls := polls + 1;
      if IsFailureStatus(status) {
        failed := true;
        break;
      }
    }
    if failed {
      return Failed(polls, status);
    }
    return Completed(polls);
  }

  /** One submitted job file with the statuses reported for it. */
  datatype BatchRun = BatchRun(file: string, created: string, retrieved: seq<string>)

  /**
    The files whose results are downloaded, in job order, and whether the
    run is still waiting on a job: failed jobs are skipped and the first job
    still waiting holds up all later ones.
   */
  function Downloads(runs: seq<BatchRun>): (seq<string>, bool) {
    if runs == [] then ([], false)
    else
      var rest := Downloads(runs[1..]);
      match PollOutcomeOf(runs[0].created, runs[0].retrieved)
      case StillPolling => ([], true)
      case Failed(_, _) => rest
      case Completed(_) => ([runs[0].file] + rest.0, rest.1)
  }

  /** Only completed jobs are downloaded, each from its own run. */
  lemma {:induction false} DownloadsSound(runs: seq<BatchRun>, file: string)
    requires file in Downloads(runs).0
    ensures exists i :: 0 <= i < |runs| && runs[i].file == file
                     && PollOutcomeOf(runs[i].created, runs[i].retrieved).Completed?
  {
    if runs != [] {
      var rest := Downloads(runs[1..]);
      var o := PollOutcomeOf(runs[0].created, runs[0].retrieved);
      if o.Completed? && file == runs[0].file {
        assert runs[0].file == file;
      } else {
        assert file in rest.0;
        DownloadsSound(runs[1..], file);
        var i :| 0 <= i < |runs[1..]| && runs[1..][i].file == file
              && PollOutcomeOf(runs[1..][i].created, runs[1..][i].retrieved).Completed?;
        assert runs[i + 1] == runs[1..][i];
      }
    }
  }

  /** When no job is left waiting, every completed job is downloaded. */
  lemma {:induction false} DownloadsComplete(runs: seq<BatchRun>, i: nat)
    requires i < |runs| && !Downloads(runs).1
    requires PollOutcomeOf(runs[i].created, runs[i].retrieved).Completed?
    ensures runs[i].file in Downloads(runs).0
  {
    if i > 0 {
      assert runs[1..][i - 1] == runs[i];
      DownloadsComplete(runs[1..], i - 1);
    }
  }

  /** The run is held up exactly when some job is still waiting when its statuses run out. */
  lemma {:induction false} DownloadsHeldUp(runs: seq<BatchRun>)
    ensures Downloads(runs).1 <==> exists i :: 0 <= i < |runs| && PollOutcomeOf(runs[i].created, runs[i].retrieved).StillPolling?
  {
    if runs != [] {
      DownloadsHeldUp(runs[1..]);
      if exists i :: 0 <= i < |runs[1..]| && PollOutcomeOf(runs[1..][i].created, runs[1..][i].retrieved).StillPolling? {
        var i :| 0 <= i < |runs[1..]| && PollOutcomeOf(runs[1..][i].created, runs[1..][i].retrieved).StillPolling?;
        assert runs[i + 1] == runs[1..][i];
      }
      forall i | 1 <= i < |runs| ensures runs[i] == runs[1..][i - 1] { }
    }
  }

  /**
    The loop over the submitted job files: wait for each in turn, skip it
    when it failed, otherwise download its results.
   */
  method ProcessBatches(runs: seq<BatchRun>) returns (downloaded: seq<string>, waiting: bool)
    ensures (downloaded, waiting) == Downloads(runs)
  {
    downloaded := [];
    var i := 0;
    while i < |runs|
      invariant 0 <= i <= |runs|
      invariant downloaded + Downloads(runs[i..]).0 == Downloads(runs).0
      invariant Downloads(runs[i..]).1 == Downloads(runs).1
    {
      assert runs[i..][0] == runs[i] && runs[i..][1..] == runs[i + 1..];
      var outcome := Poll(runs[i].created, runs[i].retrieved);
      if outcome.StillPolling? {
        assert Downloads(runs[i..]) == ([], true);
        assert downloaded + [] == downloaded;
        return downloaded, true;
      }
      if outcome.Failed? {
        i := i + 1;
        continue;
      }
      downloaded := downloaded + [runs[i].file];
      i := i + 1;
    }
    assert runs[i..] == [] && downloaded + [] == downloaded;
    return downloaded, false;
  }
}
