/** The stand-alone script `domain-name-tool.py`: the same dictionary filter and the same
    whois classification as the package, written out inside one `main`, except that its
    branch for an unknown reply refers to a name `process` that `main` never binds. */
module Legacy {
  import opened Strings
  import opened Generation
  import opened Checking

  /** The position of the first outcome classified unknown, or the length when there is
      none. */
  function FirstUnknown(outcomes: seq<Outcome>): (u: nat)
    ensures u <= |outcomes|
    ensures forall j :: 0 <= j < u ==> Classify(outcomes[j]) != Unknown
    ensures u < |outcomes| ==> Classify(outcomes[u]) == Unknown
    decreases |outcomes|
  {
    if |outcomes| == 0 then 0
    else if Classify(outcomes[0]) == Unknown then 0
    else 1 + FirstUnknown(outcomes[1..])
  }

  /** Where the script's loop ends: at the first domain when the sleep raises (unless the
      first reply is unknown, which ends it there too), otherwise at the first unknown
      reply, whose branch raises NameError right after writing its log line. */
  function LegacyStop(outcomes: seq<Outcome>, delay: real): (stop: nat)
    ensures stop <= |outcomes|
    ensures forall j :: 0 <= j < stop ==> Classify(outcomes[j]) != Unknown
    ensures stop > 0 ==> !SleepRaises(delay)
    ensures stop < |outcomes| ==> Classify(outcomes[stop]) == Unknown || SleepRaises(delay)
  {
    if SleepRaises(delay) then 0 else FirstUnknown(outcomes)
  }

  /** A reply that is not unknown, at or before the first unknown one, moves the first
      unknown reply past it. */
  lemma FirstUnknownPast(outcomes: seq<Outcome>, i: nat)
    requires i < |outcomes| && i <= FirstUnknown(outcomes)
    requires Classify(outcomes[i]) != Unknown
    ensures i < FirstUnknown(outcomes)
  {
  }

  /** The check loop of the script's `main`: for each candidate in order, classify its
      whois outcome, append its log line, then sleep once; an unknown reply ends the run
      after its line is written. */
  method CheckLegacy(domains: seq<string>, outcomes: seq<Outcome>, delay: real, now: string)
    returns (log: seq<string>, sleeps: nat, completed: bool)
    requires |domains| == |outcomes|
    ensures Run(log, sleeps, completed) == RunUntil(now, domains, outcomes, LegacyStop(outcomes, delay))
  {
    log := [Header(now)];
    sleeps := 0;
    completed := true;
    for i := 0 to |domains|
      invariant log == [Header(now)] + CheckLog(domains[..i], outcomes[..i])
      invariant sleeps == i
      invariant i > 0 ==> !SleepRaises(delay)
      invariant i <= FirstUnknown(outcomes)
    {
      ghost var before := log;
      var status := Classify(outcomes[i]);
      if status == NotAvailable {
        log := log + [domains[i] + " is not available\n"];
      } else if status == Available {
        log := log + [domains[i] + " is available\n"];
      } else if status == Unknown {
        log := log + [domains[i] + " might be available\n"];
      }
      assert log == before + LogLine(domains[i], status);
      CheckLogStep(domains, outcomes, i);
      AppendAssoc([Header(now)], CheckLog(domains[..i], outcomes[..i]), LogLine(domains[i], status));
      if status == Unknown {
        // The unknown branch goes on to read `process.stdout`: NameError, and the run
        // ends here, after its line was written.
        assert LegacyStop(outcomes, delay) == i;
        completed := false;
        return;
      }
      if SleepRaises(delay) {
        // time.sleep raises ValueError or OverflowError.
        assert i == 0 && LegacyStop(outcomes, delay) == 0;
        completed := false;
        return;
      }
      FirstUnknownPast(outcomes, i);
      sleeps := sleeps + 1;
    }
    assert domains[..|domains|] == domains && outcomes[..|outcomes|] == outcomes;
    assert LegacyStop(outcomes, delay) >= |domains|;
  }

  /** `main` of the script after argument parsing: collect the candidates for one TLD,
      write the header, then check them in order until the list ends or the run raises. */
  method RunLegacy(lengthMin: int, lengthMax: int, tld: string, dictLines: seq<string>,
                   outcomes: seq<Outcome>, delay: real, now: string)
    returns (domains: seq<string>, log: seq<string>, sleeps: nat, completed: bool)
    requires |outcomes| == |Domains(dictLines, tld, lengthMin, lengthMax)|
    ensures domains == Domains(dictLines, tld, lengthMin, lengthMax)
    ensures Run(log, sleeps, completed) == RunUntil(now, domains, outcomes, LegacyStop(outcomes, delay))
  {
    domains := GetDomains(dictLines, tld, lengthMin, lengthMax);
    log, sleeps, completed := CheckLegacy(domains, outcomes, delay, now);
  }

  /** The script stops where the package's `check_domains` does exactly when the sleep
      raises or no reply is unknown, and then it leaves the same log and sleeps. */
  lemma LegacyAgreesWithoutUnknown(now: string, domains: seq<string>, outcomes: seq<Outcome>, delay: real)
    requires |domains| == |outcomes|
    ensures (LegacyStop(outcomes, delay) == ToolStop(domains, delay))
      <==> (SleepRaises(delay) || forall j :: 0 <= j < |outcomes| ==> Classify(outcomes[j]) != Unknown)
    ensures (SleepRaises(delay) || forall j :: 0 <= j < |outcomes| ==> Classify(outcomes[j]) != Unknown) ==>
      RunUntil(now, domains, outcomes, LegacyStop(outcomes, delay))
        == RunUntil(now, domains, outcomes, ToolStop(domains, delay))
  {
  }

  /** Whatever the replies, the script's log is a prefix of the package's log for the
      same candidates, and it sleeps no more often. */
  lemma LegacyLogIsPrefix(now: string, domains: seq<string>, outcomes: seq<Outcome>, delay: real)
    requires |domains| == |outcomes|
    ensures RunUntil(now, domains, outcomes, LegacyStop(outcomes, delay)).log
      <= RunUntil(now, domains, outcomes, ToolStop(domains, delay)).log
    ensures RunUntil(now, domains, outcomes, LegacyStop(outcomes, delay)).sleeps
      <= RunUntil(now, domains, outcomes, ToolStop(domains, delay)).sleeps
  {
    RunUntilPrefix(now, domains, outcomes, LegacyStop(outcomes, delay), ToolStop(domains, delay));
  }

  /** With a delay the sleep accepts and an unknown reply, the script's last log line is
      the "might be available" line of the first unknown domain, it has slept once per
      earlier domain, and it does not complete. (When the sleep raises, the script stops
      at the first domain like the package: `LegacyAgreesWithoutUnknown`.) */
  lemma LegacyEndsAtFirstUnknown(now: string, domains: seq<string>, outcomes: seq<Outcome>, delay: real)
    requires |domains| == |outcomes|
    requires !SleepRaises(delay) && FirstUnknown(outcomes) < |outcomes|
    ensures var r := RunUntil(now, domains, outcomes, LegacyStop(outcomes, delay));
      && !r.completed
      && r.sleeps == FirstUnknown(outcomes)
      && |r.log| >= 2
      && r.log[|r.log| - 1] == domains[FirstUnknown(outcomes)] + " might be available\n"
  {
    var u := FirstUnknown(outcomes);
    assert LegacyStop(outcomes, delay) == u;
    var d, o := domains[..u + 1], outcomes[..u + 1];
    assert d[..u] == domains[..u] && o[..u] == outcomes[..u];
    assert d[u] == domains[u] && o[u] == outcomes[u];
    CheckLogUnfold(d, o);
  }

  /** A reply with no marker at all, here the empty one, stops the script at that
      domain: its "might be available" line is the last one written, and no sleep
      happens, whatever the delay. */
  lemma UnknownReplyStopsScript(now: string, domains: seq<string>, outcomes: seq<Outcome>, delay: real)
    requires domains == ["ab.be", "ado.be"]
    requires outcomes == [Text(""), Text("active")]
    ensures RunUntil(now, domains, outcomes, LegacyStop(outcomes, delay))
      == Run([Header(now), "ab.be might be available\n"], 0, false)
  {
    assert Classify(outcomes[0]) == Unknown;
    assert LegacyStop(outcomes, delay) == 0;
    RunUntilFirst(now, domains, outcomes);
    assert domains[0] + " might be available\n" == "ab.be might be available\n";
  }
}
