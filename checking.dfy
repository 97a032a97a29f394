/** The availability checker of domaintool/domaintool.py: the classification of a whois
    reply (`check_domain`) and the loop that logs and paces the checks (`check_domains`).
    The whois process is replaced by its outcome, one per domain, given as input. */
module Checking {
  import opened Strings

  /** The six statuses `check_domain` returns. */
  datatype Status = NotAvailable | Available | Throttled | Unknown | Error | Timeout

  /** What the whois process gives back: its standard output, a failed exit
      (`CalledProcessError`), or no answer within the one-second timeout
      (`TimeoutExpired`). */
  datatype Outcome = Text(output: string) | ProcessFailed | TimedOut

  // ---------------------------------------------------------------------------
  // Classification

  /** The substring chain of `check_domain`, tried in order; the first match wins. */
  function ClassifyText(output: string): (st: Status)
    ensures st != Error && st != Timeout
  {
    if Contains(output, "NOT AVAILABLE") || Contains(output, "NOT ALLOWED") || Contains(output, "active") then
      NotAvailable
    else if Contains(output, "NOT FOUND") || Contains(output, "AVAILABLE") || Contains(output, "is free") then
      Available
    else if Contains(output, "exceeded") then
      Throttled
    else
      Unknown
  }

  /** `check_domain`: a reply is classified by its text; a failed process is an error and
      a timed-out one a timeout, and these two come from nothing else. */
  function Classify(o: Outcome): (st: Status)
    ensures st == Error <==> o.ProcessFailed?
    ensures st == Timeout <==> o.TimedOut?
  {
    match o
    case Text(output) => ClassifyText(output)
    case ProcessFailed => Error
    case TimedOut => Timeout
  }

  /** One precedence rule: a reply holding any of `markers` gets `status`. */
  datatype Rule = Rule(markers: seq<string>, status: Status)

  /** The classification as a table, in precedence order. */
  const Rules: seq<Rule> := [
    Rule(["NOT AVAILABLE", "NOT ALLOWED", "active"], NotAvailable),
    Rule(["NOT FOUND", "AVAILABLE", "is free"], Available),
    Rule(["exceeded"], Throttled)
  ]

  predicate Fires(rule: Rule, output: string) {
    exists m :: m in rule.markers && Contains(output, m)
  }

  /** The index of the first rule that fires, or `|rules|` when none does. */
  function FirstFiring(rules: seq<Rule>, output: string): (k: nat)
    ensures k <= |rules|
    ensures forall j :: 0 <= j < k ==> !Fires(rules[j], output)
    ensures k < |rules| ==> Fires(rules[k], output)
  {
    if |rules| == 0 then 0
    else if Fires(rules[0], output) then 0
    else 1 + FirstFiring(rules[1..], output)
  }

  /** First-match classification by the table; `unknown` when no rule fires. */
  function ByRules(output: string): Status {
    var k := FirstFiring(Rules, output);
    if k < |Rules| then Rules[k].status else Unknown
  }

  /** The if/elif chain is exactly first-match over the rule table. */
  lemma ClassifyFollowsRules(output: string)
    ensures Classify(Text(output)) == ByRules(output)
  {
    var r0, r1, r2 := Rules[0], Rules[1], Rules[2];
    assert Fires(r0, output) <==>
      Contains(output, "NOT AVAILABLE") || Contains(output, "NOT ALLOWED") || Contains(output, "active")
    by {
      assert r0.markers == ["NOT AVAILABLE", "NOT ALLOWED", "active"];
      if Contains(output, "NOT AVAILABLE") { assert r0.markers[0] in r0.markers; }
      if Contains(output, "NOT ALLOWED") { assert r0.markers[1] in r0.markers; }
      if Contains(output, "active") { assert r0.markers[2] in r0.markers; }
    }
    assert Fires(r1, output) <==>
      Contains(output, "NOT FOUND") || Contains(output, "AVAILABLE") || Contains(output, "is free")
    by {
      assert r1.markers == ["NOT FOUND", "AVAILABLE", "is free"];
      if Contains(output, "NOT FOUND") { assert r1.markers[0] in r1.markers; }
      if Contains(output, "AVAILABLE") { assert r1.markers[1] in r1.markers; }
      if Contains(output, "is free") { assert r1.markers[2] in r1.markers; }
    }
    assert Fires(r2, output) <==> Contains(output, "exceeded") by {
      assert r2.markers == ["exceeded"];
      if Contains(output, "exceeded") { assert r2.markers[0] in r2.markers; }
    }
    assert Rules[1..] == [r1, r2];
    assert Rules[1..][1..] == [r2];
  }

  /** "NOT AVAILABLE" holds "AVAILABLE", so the order of the rules is observable: every
      reply that says NOT AVAILABLE also fires the `available` rule, and is still
      classified `not_available`. */
  lemma NotAvailableWinsOverAvailable(output: string)
    requires Contains(output, "NOT AVAILABLE")
    ensures Contains(output, "AVAILABLE")
    ensures Classify(Text(output)) == NotAvailable
  {
    assert Occurs("NOT AVAILABLE", "AVAILABLE", 4);
    ContainsIff("NOT AVAILABLE", "AVAILABLE");
    ContainsTransitive(output, "NOT AVAILABLE", "AVAILABLE");
  }

  /** A reply without the first letter of a marker does not contain that marker. */
  lemma {:induction false} MissingFirstLetter(output: string, marker: string)
    requires |marker| > 0 && marker[0] !in output
    ensures !Contains(output, marker)
  {
    forall i
      ensures !Occurs(output, marker, i)
    {
      if 0 <= i && i + |marker| <= |output| {
        assert output[i..i + |marker|][0] == output[i];
      }
    }
    ContainsIff(output, marker);
  }

  /** Worked replies: two refusals and a free domain. */
  lemma ClassifyExamples()
    ensures Classify(Text("active")) == NotAvailable
    ensures Classify(Text("NOT ALLOWED")) == NotAvailable
    ensures Classify(Text("is free")) == Available
  {
    assert Occurs("active", "active", 0);
    ContainsIff("active", "active");
    assert Occurs("NOT ALLOWED", "NOT ALLOWED", 0);
    ContainsIff("NOT ALLOWED", "NOT ALLOWED");
    assert Occurs("is free", "is free", 0);
    ContainsIff("is free", "is free");
    MissingFirstLetter("is free", "NOT AVAILABLE");
    MissingFirstLetter("is free", "NOT ALLOWED");
    MissingFirstLetter("is free", "active");
    MissingFirstLetter("is free", "NOT FOUND");
    MissingFirstLetter("is free", "AVAILABLE");
  }

  /** A reply holding both "active" and "AVAILABLE" is classified not_available. */
  lemma MixedReplyExample(output: string)
    requires output == "Status: active\nAVAILABLE"
    ensures Contains(output, "AVAILABLE")
    ensures Classify(Text(output)) == NotAvailable
  {
    assert Occurs(output, "active", 8);
    assert Occurs(output, "AVAILABLE", 15);
    ContainsIff(output, "active");
    ContainsIff(output, "AVAILABLE");
  }

  /** A throttling notice with no earlier marker is classified throttled. */
  lemma ThrottledExample(output: string)
    requires output == "exceeded"
    ensures Classify(Text(output)) == Throttled
  {
    assert Contains(output, "exceeded");
    MissingFirstLetter(output, "NOT AVAILABLE");
    MissingFirstLetter(output, "NOT ALLOWED");
    MissingFirstLetter(output, "active");
    MissingFirstLetter(output, "NOT FOUND");
    MissingFirstLetter(output, "AVAILABLE");
    MissingFirstLetter(output, "is free");
  }

  // ---------------------------------------------------------------------------
  // The check loop

  /** The statuses that get a line in the log file. */
  predicate Logged(st: Status) {
    st == NotAvailable || st == Available || st == Unknown
  }

  /** What `check_domains` writes to the log for one domain and its status. */
  function LogLine(domain: string, st: Status): (r: seq<string>)
    ensures |r| == if Logged(st) then 1 else 0
  {
    match st
    case NotAvailable => [domain + " is not available\n"]
    case Available => [domain + " is available\n"]
    case Unknown => [domain + " might be available\n"]
    case _ => []
  }

  /** The header written when the log is opened; `now` stands for `datetime.now()`:
      the timestamp on a line of its own, after an empty line. */
  function Header(now: string): (h: string)
    ensures |h| == |now| + 2
    ensures h[0] == '\n' && h[|h| - 1] == '\n' && h[1..|h| - 1] == now
  {
    "\n" + now + "\n"
  }

  /** The log lines for the domains, in order, given each domain's whois outcome. */
  function CheckLog(domains: seq<string>, outcomes: seq<Outcome>): (r: seq<string>)
    requires |domains| == |outcomes|
    ensures |r| <= |domains|
  {
    if |domains| == 0 then []
    else
      var n := |domains| - 1;
      CheckLog(domains[..n], outcomes[..n]) + LogLine(domains[n], Classify(outcomes[n]))
  }

  /** The log keeps the order of the domains: it distributes over concatenation. */
  lemma {:induction false} CheckLogAppend(d1: seq<string>, o1: seq<Outcome>, d2: seq<string>, o2: seq<Outcome>)
    requires |d1| == |o1| && |d2| == |o2|
    ensures CheckLog(d1 + d2, o1 + o2) == CheckLog(d1, o1) + CheckLog(d2, o2)
    decreases |d2|
  {
    if |d2| == 0 {
      assert d1 + d2 == d1 && o1 + o2 == o1;
    } else {
      var n := |d2| - 1;
      var d, o := d1 + d2, o1 + o2;
      assert d[..|d| - 1] == d1 + d2[..n];
      assert o[..|o| - 1] == o1 + o2[..n];
      assert d[|d| - 1] == d2[n] && o[|o| - 1] == o2[n];
      var line := LogLine(d2[n], Classify(o2[n]));
      calc {
        CheckLog(d, o);
        { CheckLogUnfold(d, o); }
        CheckLog(d1 + d2[..n], o1 + o2[..n]) + line;
        { CheckLogAppend(d1, o1, d2[..n], o2[..n]); }
        (CheckLog(d1, o1) + CheckLog(d2[..n], o2[..n])) + line;
        CheckLog(d1, o1) + (CheckLog(d2[..n], o2[..n]) + line);
        { CheckLogUnfold(d2, o2); }
        CheckLog(d1, o1) + CheckLog(d2, o2);
      }
    }
  }

  /** One step of CheckLog: the log of all but the last domain, then the last line. */
  lemma CheckLogUnfold(d: seq<string>, o: seq<Outcome>)
    requires |d| == |o| > 0
    ensures CheckLog(d, o) == CheckLog(d[..|d| - 1], o[..|o| - 1]) + LogLine(d[|d| - 1], Classify(o[|o| - 1]))
  {
  }

  /** Extending the checked prefix by one domain appends that domain's line. */
  lemma CheckLogStep(domains: seq<string>, outcomes: seq<Outcome>, i: nat)
    requires |domains| == |outcomes| && i < |domains|
    ensures CheckLog(domains[..i + 1], outcomes[..i + 1])
      == CheckLog(domains[..i], outcomes[..i]) + LogLine(domains[i], Classify(outcomes[i]))
  {
    assert domains[..i + 1][..i] == domains[..i];
    assert outcomes[..i + 1][..i] == outcomes[..i];
    CheckLogUnfold(domains[..i + 1], outcomes[..i + 1]);
  }

  /** The positions whose status is logged, in order. */
  function LoggedIndices(outcomes: seq<Outcome>): (r: seq<nat>)
    ensures forall k :: 0 <= k < |r| ==> r[k] < |outcomes|
  {
    if |outcomes| == 0 then []
    else
      var n := |outcomes| - 1;
      LoggedIndices(outcomes[..n]) + (if Logged(Classify(outcomes[n])) then [n] else [])
  }

  /** A position is logged exactly when its status is not_available, available or
      unknown; throttled, error and timeout get no line. */
  lemma {:induction false} LoggedIndicesComplete(outcomes: seq<Outcome>, i: int)
    requires 0 <= i < |outcomes|
    ensures i in LoggedIndices(outcomes) <==> Logged(Classify(outcomes[i]))
  {
    var n := |outcomes| - 1;
    if i < n {
      LoggedIndicesComplete(outcomes[..n], i);
      assert outcomes[..n][i] == outcomes[i];
    } else {
      assert i !in LoggedIndices(outcomes[..n]);
    }
  }

  /** Logged positions come in input order. */
  lemma {:induction false} LoggedIndicesIncreasing(outcomes: seq<Outcome>)
    ensures forall k, m :: 0 <= k < m < |LoggedIndices(outcomes)| ==>
      LoggedIndices(outcomes)[k] < LoggedIndices(outcomes)[m]
  {
    if |outcomes| > 0 {
      LoggedIndicesIncreasing(outcomes[..|outcomes| - 1]);
    }
  }

  /** The k-th log line is the fixed-format line of the k-th logged domain. */
  lemma {:induction false} CheckLogFromIndices(domains: seq<string>, outcomes: seq<Outcome>)
    requires |domains| == |outcomes|
    ensures |CheckLog(domains, outcomes)| == |LoggedIndices(outcomes)|
    ensures forall k :: 0 <= k < |LoggedIndices(outcomes)| ==>
      Logged(Classify(outcomes[LoggedIndices(outcomes)[k]]))
      && [CheckLog(domains, outcomes)[k]]
        == LogLine(domains[LoggedIndices(outcomes)[k]], Classify(outcomes[LoggedIndices(outcomes)[k]]))
  {
    if |domains| > 0 {
      var n := |domains| - 1;
      CheckLogFromIndices(domains[..n], outcomes[..n]);
      var s0 := LoggedIndices(outcomes[..n]);
      var l0 := CheckLog(domains[..n], outcomes[..n]);
      var s := LoggedIndices(outcomes);
      var l := CheckLog(domains, outcomes);
      forall k | 0 <= k < |s|
        ensures Logged(Classify(outcomes[s[k]])) && [l[k]] == LogLine(domains[s[k]], Classify(outcomes[s[k]]))
      {
        if k < |s0| {
          assert s[k] == s0[k] && l[k] == l0[k];
          assert domains[s[k]] == domains[..n][s0[k]];
          assert outcomes[s[k]] == outcomes[..n][s0[k]];
        }
      }
    }
  }

  /** What a run leaves behind: the chunks appended to `log.txt`, the number of sleeps
      of `delay`, and whether the loop went through all domains. */
  datatype Run = Run(log: seq<string>, sleeps: nat, completed: bool)

  /** A run that ends while handling domain `stop` (after writing its log line, before
      its sleep), or goes through all domains when `stop` is past the end. */
  function RunUntil(now: string, domains: seq<string>, outcomes: seq<Outcome>, stop: nat): (r: Run)
    requires |domains| == |outcomes|
    ensures r.completed <==> stop >= |domains|
    ensures r.sleeps <= |domains| && |r.log| <= |domains| + 1
  {
    if stop < |domains| then
      Run([Header(now)] + CheckLog(domains[..stop + 1], outcomes[..stop + 1]), stop, false)
    else
      Run([Header(now)] + CheckLog(domains, outcomes), |domains|, true)
  }

  /** A run that ends earlier leaves a prefix of the log and no more sleeps. */
  lemma RunUntilPrefix(now: string, domains: seq<string>, outcomes: seq<Outcome>, s1: nat, s2: nat)
    requires |domains| == |outcomes| && s1 <= s2
    ensures RunUntil(now, domains, outcomes, s1).log <= RunUntil(now, domains, outcomes, s2).log
    ensures RunUntil(now, domains, outcomes, s1).sleeps <= RunUntil(now, domains, outcomes, s2).sleeps
  {
    var n := |domains|;
    var a := if s1 < n then s1 + 1 else n;
    var b := if s2 < n then s2 + 1 else n;
    assert domains[..b] == domains[..a] + domains[a..b];
    assert outcomes[..b] == outcomes[..a] + outcomes[a..b];
    CheckLogAppend(domains[..a], outcomes[..a], domains[a..b], outcomes[a..b]);
    assert domains[..n] == domains && outcomes[..n] == outcomes;
  }

  /** 2^63 nanoseconds, in seconds: `time.sleep` converts its argument to a signed 64-bit
      count of nanoseconds. */
  const MaxSleepSeconds: real := 9223372036.854775808

  /** `time.sleep(delay)` raises: ValueError for a negative delay, OverflowError for one
      whose nanosecond count does not fit in a signed 64-bit integer. */
  predicate SleepRaises(delay: real)
    ensures !SleepRaises(delay) ==> 0.0 <= delay && delay * 1000000000.0 < 9223372036854775808.0
    ensures SleepRaises(delay) ==> delay < 0.0 || delay * 1000000000.0 >= 9223372036854775808.0
  {
    delay < 0.0 || delay >= MaxSleepSeconds
  }

  /** Where `check_domains` ends: after the last domain, or after the first one when the
      sleep raises. */
  function ToolStop(domains: seq<string>, delay: real): (stop: nat)
    ensures stop <= |domains|
    ensures stop < |domains| <==> SleepRaises(delay) && |domains| > 0
  {
    if SleepRaises(delay) then 0 else |domains|
  }

  /** A run that stops at the first domain has written the header and that domain's line,
      and has not slept. */
  lemma RunUntilFirst(now: string, domains: seq<string>, outcomes: seq<Outcome>)
    requires |domains| == |outcomes| > 0
    ensures RunUntil(now, domains, outcomes, 0)
      == Run([Header(now)] + LogLine(domains[0], Classify(outcomes[0])), 0, false)
  {
    var d, o := domains[..1], outcomes[..1];
    assert d[..0] == [] && o[..0] == [];
    assert d[0] == domains[0] && o[0] == outcomes[0];
    CheckLogUnfold(d, o);
  }

  /** `check_domains`: for each domain in order, classify its whois outcome, append the
      log line for not_available, available and unknown, then sleep once. */
  method CheckDomains(domains: seq<string>, outcomes: seq<Outcome>, delay: real, now: string)
    returns (log: seq<string>, sleeps: nat, completed: bool)
    requires |domains| == |outcomes|
    ensures Run(log, sleeps, completed) == RunUntil(now, domains, outcomes, ToolStop(domains, delay))
    ensures !SleepRaises(delay) ==> completed && sleeps == |domains|
    ensures SleepRaises(delay) && |domains| > 0 ==> !completed && sleeps == 0
  {
    log := [Header(now)];
    sleeps := 0;
    completed := true;
    for i := 0 to |domains|
      invariant log == [Header(now)] + CheckLog(domains[..i], outcomes[..i])
      invariant sleeps == i
      invariant i > 0 ==> !SleepRaises(delay)
    {
      ghost var before := log;
      var status := Classify(outcomes[i]);
      if status == NotAvailable {
        log := log + [domains[i] + " is not available\n"];
      } else if status == Available {
        log := log + [domains[i] + " is available\n"];
      } else if status == Unknown {
        log := log + [domains[i] + " might be available\n"];
      }
      assert log == before + LogLine(domains[i], status);
      CheckLogStep(domains, outcomes, i);
      AppendAssoc([Header(now)], CheckLog(domains[..i], outcomes[..i]), LogLine(domains[i], status));
      if SleepRaises(delay) {
        // time.sleep raises ValueError or OverflowError; the run ends here.
        completed := false;
        return;
      }
      sleeps := sleeps + 1;
    }
    assert domains[..|domains|] == domains && outcomes[..|outcomes|] == outcomes;
  }

  /** The log of three checks is their three lines in input order. */
  lemma CheckLogThree(d0: string, d1: string, d2: string, o0: Outcome, o1: Outcome, o2: Outcome)
    ensures CheckLog([d0, d1, d2], [o0, o1, o2])
      == LogLine(d0, Classify(o0)) + LogLine(d1, Classify(o1)) + LogLine(d2, Classify(o2))
  {
    var d, o := [d0, d1, d2], [o0, o1, o2];
    assert d[..2][..1] == d[..1] && o[..2][..1] == o[..1];
    assert d[..1][..0] == [] && o[..1][..0] == [];
    CheckLogUnfold(d[..1], o[..1]);
    CheckLogUnfold(d[..2], o[..2]);
    CheckLogUnfold(d, o);
  }

  /** The not-available line, written out for the two example domains. */
  lemma NotAvailableLineExample(d0: string, d1: string)
    requires d0 == "ab.be" && d1 == "ado.be"
    ensures LogLine(d0, NotAvailable) == ["ab.be is not available\n"]
    ensures LogLine(d1, NotAvailable) == ["ado.be is not available\n"]
  {
    assert d0 + " is not available\n" == "ab.be is not available\n";
    assert d1 + " is not available\n" == "ado.be is not available\n";
  }

  /** The available line, written out for an example domain. */
  lemma AvailableLineExample(domain: string)
    requires domain == "foredescri.be"
    ensures LogLine(domain, Available) == ["foredescri.be is available\n"]
  {
    assert domain + " is available\n" == "foredescri.be is available\n";
  }

  /** The unknown line says "might be available"; a throttled domain gets no line. */
  lemma UnknownLineExample(domain: string)
    requires domain == "foredescri.be"
    ensures LogLine(domain, Unknown) == ["foredescri.be might be available\n"]
    ensures LogLine(domain, Throttled) == []
  {
    assert domain + " might be available\n" == "foredescri.be might be available\n";
  }

  /** Three candidates against canned replies: two refusals and one free domain. */
  lemma CheckExample(d: seq<string>, o: seq<Outcome>)
    requires d == ["ab.be", "ado.be", "foredescri.be"]
    requires o == [Text("active"), Text("NOT ALLOWED"), Text("is free")]
    ensures CheckLog(d, o) == ["ab.be is not available\n", "ado.be is not available\n", "foredescri.be is available\n"]
  {
    assert d == [d[0], d[1], d[2]] && o == [o[0], o[1], o[2]];
    CheckLogThree(d[0], d[1], d[2], o[0], o[1], o[2]);
    ClassifyExamples();
    NotAvailableLineExample(d[0], d[1]);
    AvailableLineExample(d[2]);
  }
}
