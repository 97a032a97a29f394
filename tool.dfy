/** `main` of the `domaintool` package after argument parsing: collect the candidates for
    the requested TLD (or for every TLD of the list), then check them all. */
module Tool {
  import opened Generation
  import opened Checking

  /** The candidates are collected first, then checked in order; `outcomes` stands for the
      whois replies, one per candidate, and `now` for the timestamp of the log header.
      When the progress bar divides by zero nothing is written and nothing is checked. */
  method RunTool(tldArg: string, tldFileLines: seq<string>, dictLines: seq<string>,
                 lengthMin: int, lengthMax: int, outcomes: seq<Outcome>, delay: real, now: string)
    returns (domains: seq<string>, log: seq<string>, sleeps: nat, completed: bool)
    requires |outcomes| == |Candidates(tldArg, tldFileLines, dictLines, lengthMin, lengthMax)|
    ensures domains == Candidates(tldArg, tldFileLines, dictLines, lengthMin, lengthMax)
    ensures tldArg == "any" && |tldFileLines| <= 1 ==> log == [] && sleeps == 0 && !completed
    ensures !(tldArg == "any" && |tldFileLines| <= 1) ==>
      Run(log, sleeps, completed) == RunUntil(now, domains, outcomes, ToolStop(domains, delay))
      && (!SleepRaises(delay) ==> completed && sleeps == |domains|)
      && (SleepRaises(delay) && |domains| > 0 ==> !completed && sleeps == 0)
  {
    var divisionByZero;
    domains, divisionByZero := CollectCandidates(tldArg, tldFileLines, dictLines, lengthMin, lengthMax);
    if divisionByZero {
      log, sleeps, completed := [], 0, false;
      return;
    }
    log, sleeps, completed := CheckDomains(domains, outcomes, delay, now);
  }

  /** The log starts with the header. With a delay the sleep accepts, the header is
      followed by exactly one line per candidate whose reply is classified not_available,
      available or unknown, in candidate order; when the sleep raises, only by the first
      candidate's line, if any. */
  lemma RunToolLog(now: string, domains: seq<string>, outcomes: seq<Outcome>, delay: real)
    requires |domains| == |outcomes|
    ensures RunUntil(now, domains, outcomes, ToolStop(domains, delay)).log[0] == "\n" + now + "\n"
    ensures SleepRaises(delay) && |domains| > 0 ==>
      RunUntil(now, domains, outcomes, ToolStop(domains, delay)).log
        == ["\n" + now + "\n"] + LogLine(domains[0], Classify(outcomes[0]))
    ensures !SleepRaises(delay) ==> var r := RunUntil(now, domains, outcomes, ToolStop(domains, delay));
      && |r.log| == 1 + |LoggedIndices(outcomes)|
      && forall k :: 0 <= k < |LoggedIndices(outcomes)| ==>
           [r.log[k + 1]] == LogLine(domains[LoggedIndices(outcomes)[k]], Classify(outcomes[LoggedIndices(outcomes)[k]]))
  {
    if SleepRaises(delay) {
      if |domains| > 0 {
        RunUntilFirst(now, domains, outcomes);
      }
      return;
    }
    CheckLogFromIndices(domains, outcomes);
    var r := RunUntil(now, domains, outcomes, ToolStop(domains, delay));
    var l := CheckLog(domains, outcomes);
    assert r.log == [Header(now)] + l;
    forall k | 0 <= k < |LoggedIndices(outcomes)|
      ensures [r.log[k + 1]] == LogLine(domains[LoggedIndices(outcomes)[k]], Classify(outcomes[LoggedIndices(outcomes)[k]]))
    {
      assert r.log[k + 1] == l[k];
    }
  }
}
