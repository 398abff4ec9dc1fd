/**
  The main block of the propagation script: run a cycle, show the dashboard, and stop when
  no interval was given, or when at least one resolver responded and every responsive
  resolver shows a target nameserver; then print the verdict read from the counts of the
  last completed cycle. The query outcomes of each
  cycle are an input; where the supplied cycles run out, the user pressed Ctrl+C.
 */
module Monitor {
  import opened Wrappers
  import opened Resolvers
  import opened DigQuery
  import opened Propagation
  import opened Dashboard

  /** `interval <= 0 or (total_count > 0 and cloudflare_count == total_count)`. */
  predicate ShouldStop(interval: int, propagated: nat, responsive: nat) {
    interval <= 0 || (responsive > 0 && propagated == responsive)
  }

  /** The counts `display_nameserver_dashboard` returns for one cycle's results. */
  function Counts(results: seq<QueryResult>, targets: seq<string>): (nat, nat) {
    (CountWhere(results, Propagated, targets), CountWhere(results, Responsive, targets))
  }

  /** Cycle by cycle, `history` holds the dashboard counts of the results in `observed`. */
  predicate CountsRecorded(observed: seq<seq<QueryResult>>, history: seq<(nat, nat)>, targets: seq<string>)
    decreases |observed|
  {
    && |observed| == |history|
    && (observed != [] ==>
          var n := |observed| - 1;
          CountsRecorded(observed[..n], history[..n], targets) && history[n] == Counts(observed[n], targets))
  }

  lemma CountsRecordedSnoc(observed: seq<seq<QueryResult>>, history: seq<(nat, nat)>, targets: seq<string>,
                           results: seq<QueryResult>, counts: (nat, nat))
    requires CountsRecorded(observed, history, targets) && counts == Counts(results, targets)
    ensures CountsRecorded(observed + [results], history + [counts], targets)
  {
    assert (observed + [results])[..|observed|] == observed;
    assert (history + [counts])[..|history|] == history;
  }

  /** Each entry of the history is the dashboard's counts of that cycle's results. */
  lemma {:induction false} CountsRecordedAt(observed: seq<seq<QueryResult>>, history: seq<(nat, nat)>, targets: seq<string>, k: nat)
    requires CountsRecorded(observed, history, targets) && k < |observed|
    ensures history[k] == Counts(observed[k], targets)
    decreases |observed|
  {
    var n := |observed| - 1;
    if k < n {
      CountsRecordedAt(observed[..n], history[..n], targets, k);
    }
  }

  /** Cycle by cycle, `observed` and `backupsUsed` are a full propagation check on that cycle's outcomes. */
  predicate CyclesChecked(dir: Directory, cycles: seq<Server -> DigOutcome>, observed: seq<seq<QueryResult>>, backupsUsed: seq<seq<Server>>)
    decreases |observed|
  {
    && |observed| == |backupsUsed| <= |cycles|
    && (observed != [] ==>
          var n := |observed| - 1;
          CyclesChecked(dir, cycles, observed[..n], backupsUsed[..n]) && CycleOf(dir, cycles[n], observed[n], backupsUsed[n]))
  }

  lemma CyclesCheckedSnoc(dir: Directory, cycles: seq<Server -> DigOutcome>, observed: seq<seq<QueryResult>>, backupsUsed: seq<seq<Server>>,
                          results: seq<QueryResult>, backups: seq<Server>)
    requires CyclesChecked(dir, cycles, observed, backupsUsed) && |observed| < |cycles|
    requires CycleOf(dir, cycles[|observed|], results, backups)
    ensures CyclesChecked(dir, cycles, observed + [results], backupsUsed + [backups])
  {
    assert (observed + [results])[..|observed|] == observed;
    assert (backupsUsed + [backups])[..|backupsUsed|] == backupsUsed;
  }

  /** The three final messages. */
  datatype Verdict = FullyPropagated | PartiallyPropagated | NotStarted

  /** The final message chain on a pair of counts. */
  function VerdictOf(propagated: nat, responsive: nat): Verdict {
    if propagated == responsive && responsive > 0 then FullyPropagated
    else if propagated > 0 then PartiallyPropagated
    else NotStarted
  }

  /** On counts the dashboard can return, each verdict has its own condition. */
  lemma VerdictIff(propagated: nat, responsive: nat)
    requires propagated <= responsive
    ensures VerdictOf(propagated, responsive) == FullyPropagated <==> responsive > 0 && propagated == responsive
    ensures VerdictOf(propagated, responsive) == PartiallyPropagated <==> 0 < propagated < responsive
    ensures VerdictOf(propagated, responsive) == NotStarted <==> propagated == 0
  {
  }

  /** The verdict agrees with the dashboard's estimate for the same counts. */
  lemma VerdictAgreesWithEstimate(propagated: nat, responsive: nat)
    requires propagated <= responsive
    ensures VerdictOf(propagated, responsive) == FullyPropagated <==> EstimateOf(propagated, responsive) == Complete
    ensures VerdictOf(propagated, responsive) == NotStarted <==> EstimateOf(propagated, responsive) == NotDetected
    ensures VerdictOf(propagated, responsive) == PartiallyPropagated <==> EstimateOf(propagated, responsive).Remaining?
  {
  }

  /** What stops the script instead of a message. */
  datatype Crash = NameError(variable: string)

  /**
    The final message as written: it reads the counts of the last completed cycle, which are
    unbound when Ctrl+C came before the first cycle finished.
   */
  function FinalVerdictAsWritten(last: Option<(nat, nat)>): Result<Verdict, Crash> {
    match last
    case None => Err(NameError("cloudflare_count"))
    case Some(counts) => Ok(VerdictOf(counts.0, counts.1))
  }

  /** An interrupt during the first cycle ends in a NameError instead of a summary. */
  lemma InterruptedFirstCycleCrashes()
    ensures FinalVerdictAsWritten(None).Err?
  {
  }

  /** The final message with no completed cycle read as "not started". */
  function FinalVerdict(last: Option<(nat, nat)>): (v: Verdict)
    ensures last.Some? ==> FinalVerdictAsWritten(last) == Ok(v)
    ensures last.None? ==> v == NotStarted
  {
    match last
    case None => NotStarted
    case Some(counts) => VerdictOf(counts.0, counts.1)
  }

  /** The counts of the last completed cycle: what `cloudflare_count` and `total_count` hold after the loop. */
  function LastCounts(history: seq<(nat, nat)>): (last: Option<(nat, nat)>)
    ensures last.None? <==> history == []
    ensures last.Some? ==> last.value == history[|history| - 1]
  {
    if history == [] then None else Some(history[|history| - 1])
  }

  /** The stop rule held for the last cycle and for no earlier one, and only then did the loop stop. */
  predicate StoppedAtFirst(interval: int, history: seq<(nat, nat)>, stopped: bool) {
    && (stopped ==> history != [])
    && forall k :: 0 <= k < |history| ==>
         (ShouldStop(interval, history[k].0, history[k].1) <==> stopped && k == |history| - 1)
  }

  lemma StoppedAtFirstSnoc(interval: int, history: seq<(nat, nat)>, counts: (nat, nat))
    requires StoppedAtFirst(interval, history, false)
    ensures StoppedAtFirst(interval, history + [counts], ShouldStop(interval, counts.0, counts.1))
  {
    var h := history + [counts];
    forall k | 0 <= k < |h|
      ensures ShouldStop(interval, h[k].0, h[k].1) <==> ShouldStop(interval, counts.0, counts.1) && k == |h| - 1
    {
      if k < |history| {
        assert h[k] == history[k];
      }
    }
  }

  /** Without a positive interval the script checks once and stops. */
  lemma NoIntervalChecksOnce(interval: int, history: seq<(nat, nat)>, stopped: bool)
    requires interval <= 0 && history != [] && StoppedAtFirst(interval, history, stopped)
    ensures stopped && |history| == 1
  {
    assert ShouldStop(interval, history[0].0, history[0].1);
  }

  /** A monitor that stopped by itself saw every responsive resolver answer with a target nameserver. */
  lemma StopMeansFullyPropagated(interval: int, observed: seq<seq<QueryResult>>, history: seq<(nat, nat)>, targets: seq<string>)
    requires interval > 0 && CountsRecorded(observed, history, targets) && StoppedAtFirst(interval, history, true)
    ensures FinalVerdict(LastCounts(history)) == FullyPropagated
    ensures AllResponsivePropagated(observed[|observed| - 1], targets)
  {
    var n := |history| - 1;
    assert ShouldStop(interval, history[n].0, history[n].1);
    CountsRecordedAt(observed, history, targets, n);
    AllPropagatedIff(observed[n], targets);
  }

  /** One cycle: the propagation check, then the dashboard's counts of its results. */
  method RunCycle(dir: Directory, dig: Server -> DigOutcome, targets: seq<string>)
    returns (results: seq<QueryResult>, backups: seq<Server>, counts: (nat, nat))
    ensures CycleOf(dir, dig, results, backups)
    ensures counts == Counts(results, targets)
  {
    results, backups := VerifyPropagation(dir, dig);
    var cloudflareCount, totalCount := DashboardCounts(results, targets);
    counts := (cloudflareCount, totalCount);
  }

  /**
    The monitoring loop: one call of `verify_nameserver_propagation` and of the dashboard per
    cycle, until the stop rule holds or the cycles run out. Every completed cycle is a full
    propagation check with its dashboard counts, the loop stops at the first cycle whose
    counts meet the stop rule, and the verdict is read from the last cycle.
   */
  method Run(dir: Directory, targets: seq<string>, interval: int, cycles: seq<Server -> DigOutcome>)
    returns (observed: seq<seq<QueryResult>>, backupsUsed: seq<seq<Server>>, history: seq<(nat, nat)>, stopped: bool, verdict: Verdict)
    ensures CyclesChecked(dir, cycles, observed, backupsUsed)
    ensures CountsRecorded(observed, history, targets)
    ensures StoppedAtFirst(interval, history, stopped)
    ensures !stopped ==> |history| == |cycles|
    ensures verdict == FinalVerdict(LastCounts(history))
  {
    observed := [];
    backupsUsed := [];
    history := [];
    stopped := false;
    while |history| < |cycles| && !stopped
      invariant CyclesChecked(dir, cycles, observed, backupsUsed)
      invariant CountsRecorded(observed, history, targets)
      invariant StoppedAtFirst(interval, history, stopped)
    {
      var results, backups, counts := RunCycle(dir, cycles[|history|], targets);
      CyclesCheckedSnoc(dir, cycles, observed, backupsUsed, results, backups);
      CountsRecordedSnoc(observed, history, targets, results, counts);
      StoppedAtFirstSnoc(interval, history, counts);
      observed := observed + [results];
      backupsUsed := backupsUsed + [backups];
      history := history + [counts];
      if ShouldStop(interval, counts.0, counts.1) {
        stopped := true;
      }
    }
    verdict := FinalVerdict(LastCounts(history));
  }
}
