/**
  `run_dig_command` without the process: the outcome of `dig @ip domain NS +short`
  (finished with a return code and its two output streams, timed out, or raised) is
  an input, and the function shapes it into the result record of the dashboard.
 */
module DigQuery {
  import opened Wrappers
  import opened Text
  import opened Resolvers

  /** What running `dig` gave: a finished process, `TimeoutExpired`, or another exception's text. */
  datatype DigOutcome =
    | Completed(returnCode: int, stdout: string, stderr: string)
    | TimedOut
    | Raised(message: string)

  /** The result dictionary built by `run_dig_command`. */
  datatype QueryResult = QueryResult(
    server: string,
    serverIp: string,
    region: string,
    success: bool,
    answers: seq<string>,
    error: Option<string>,
    isBackup: bool)

  const TimeoutMessage: string := "Timeout querying DNS server"

  /** `output.split('\n')` for non-empty stripped output, `[]` otherwise. */
  function Answers(stdout: string): seq<string> {
    var output := Strip(stdout);
    if output == [] then [] else SplitOn(output, "\n")
  }

  /** No answers iff the output is blank; otherwise the answers are the lines of the stripped output. */
  lemma AnswersShape(stdout: string)
    ensures Answers(stdout) == [] <==> Strip(stdout) == []
    ensures Answers(stdout) != [] ==> Join(Answers(stdout), "\n") == Strip(stdout)
    ensures forall k :: 0 <= k < |Answers(stdout)| ==> '\n' !in Answers(stdout)[k]
  {
    var output := Strip(stdout);
    if output != [] {
      JoinSplit(output, "\n");
      SplitPiecesFree(output, "\n");
      forall k | 0 <= k < |SplitOn(output, "\n")| ensures '\n' !in SplitOn(output, "\n")[k] {
        OccursChar(SplitOn(output, "\n")[k], '\n');
      }
    }
  }

  /** One line per answer: the answers of a multi-line output are its lines, in order. */
  lemma AnswersOfLines(lines: seq<string>)
    requires |lines| >= 1 && forall k :: 0 <= k < |lines| ==> '\n' !in lines[k]
    requires Strip(Join(lines, "\n")) == Join(lines, "\n") && Join(lines, "\n") != []
    ensures Answers(Join(lines, "\n")) == lines
  {
    SplitJoin(lines, '\n');
  }

  /** The result record for `server` given what running `dig` against it gave. */
  function RunDig(dir: Directory, server: Server, outcome: DigOutcome): (r: QueryResult)
    ensures r.server == server.name && r.serverIp == server.ip
    ensures r.region == RegionOf(dir, server.ip) && (r.isBackup <==> IsBackup(dir, server.ip))
    ensures r.success <==> outcome.Completed? && outcome.returnCode == 0
    ensures !outcome.Completed? ==> r.answers == [] && r.error.Some?
    ensures outcome.TimedOut? ==> r.error == Some(TimeoutMessage)
    ensures outcome.Raised? ==> r.error == Some(outcome.message)
    ensures outcome.Completed? ==> r.answers == Answers(outcome.stdout)
    ensures outcome.Completed? ==> (r.error.None? <==> outcome.stderr == [])
    ensures outcome.Completed? && r.error.Some? ==> r.error.value == Strip(outcome.stderr)
  {
    var region := RegionOf(dir, server.ip);
    var isBackup := IsBackup(dir, server.ip);
    match outcome
    case Completed(rc, out, err) =>
      QueryResult(server.name, server.ip, region, rc == 0, Answers(out), if err != [] then Some(Strip(err)) else None, isBackup)
    case TimedOut =>
      QueryResult(server.name, server.ip, region, false, [], Some(TimeoutMessage), isBackup)
    case Raised(message) =>
      QueryResult(server.name, server.ip, region, false, [], Some(message), isBackup)
  }

  /** A query that did not finish never counts as an answer. */
  lemma FailedQueryIsNotUsable(dir: Directory, server: Server, outcome: DigOutcome)
    requires !outcome.Completed?
    ensures !RunDig(dir, server, outcome).success && RunDig(dir, server, outcome).answers == []
  {
  }

  /** `list(executor.map(run_dig_command, servers))`: one result per server, in server order. */
  function QueryAll(dir: Directory, servers: seq<Server>, dig: Server -> DigOutcome): (rs: seq<QueryResult>)
    ensures |rs| == |servers|
    ensures forall k :: 0 <= k < |servers| ==> rs[k] == RunDig(dir, servers[k], dig(servers[k]))
  {
    seq(|servers|, k requires 0 <= k < |servers| => RunDig(dir, servers[k], dig(servers[k])))
  }
}
