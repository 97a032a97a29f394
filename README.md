# domain-name-tool, modelled in Dafny

domain-name-tool looks for *domain hacks*: dictionary words whose ending is a top-level
domain, written with a dot before that ending (`cathode` gives `catho.de`). For each
candidate it asks `whois` and classifies the reply. It appends a line to `log.txt` for
each candidate classified not_available, available or unknown, and sleeps for a fixed
delay after each candidate.

The model covers two programs:

- the `domaintool` package (`domaintool/domaintool.py`, class `DomainChecker` and
  `main`);
- the older stand-alone script `domain-name-tool.py`.

Modules:

- `Strings` (`strings.dfy`) defines the Python text operations the tool uses:
  - `str.lower` is `Lower`, on ASCII letters only;
  - `str.endswith` is `EndsWith`;
  - the substring test `sub in s` is `Contains`. It is proved equal to the positional
    definition `Occurs`.
- `Generation` (`generation.dfy`) covers the candidate generator:
  - `get_tld_list`, `find_tlds` and `get_domains`, each as a method with its loop;
  - the `Domains` function that specifies the dictionary filter;
  - the 'any' mode of `main`, which runs the filter once per TLD of the list and
    concatenates the results.
- `Checking` (`checking.dfy`) covers the checker:
  - `check_domain` is `Classify`, over the three outcomes of the whois process;
  - the if/elif chain is proved equal to first-match over a rule table;
  - `check_domains` is a method whose log, sleep count and completion are specified
    by `RunUntil`.
- `Tool` (`tool.dfy`) is the package's `main`: collect the candidates, then check
  them.
- `Legacy` (`legacy.dfy`) is the stand-alone script. It has the same filter and the
  same classification. Its unknown-reply branch reads a variable `main` never binds,
  so the run ends at the first unknown reply.

The model uses these encodings:

- Files, the whois process and the clock are inputs:
  - the dictionary is the sequence of lines that iterating over the file yields, each
    line with its newline (`dictLines`);
  - the TLD file is the sequence of lines that `splitlines` yields, without line
    endings (`tldFileLines`), as used by `GetTldList`, `FindTlds`, `CollectCandidates`
    and `RunTool`;
  - the whois result for each candidate is an `Outcome`: `Text(stdout)`,
    `ProcessFailed` (CalledProcessError) or `TimedOut` (TimeoutExpired);
  - the timestamp of the log header is a string `now`.
- The log file is the sequence of chunks written to it, the header first.
- `time.sleep` is a count of sleeps.
- `time.sleep` raises when the delay is negative (ValueError) or when its count of
  nanoseconds reaches 2^63, that is a delay of 9223372036.854775808 seconds or more
  (OverflowError). A run with such a delay ends after the first candidate
  (`SleepRaises`).

Behaviour the code has, kept as written:

- The word is the dictionary line without its last character (`line[0:-1]`),
  lowercased. A last line without a newline therefore loses a letter
  (`LastLineLosesLetter`).
- The length bounds apply to the whole word, TLD included.
- Hyphenated words are dropped for every TLD.
- In 'any' mode the candidates are grouped by TLD, in TLD-list order, and within a TLD
  by dictionary order. They are not grouped by word.
- The TLD given with `--tld` is compared as written. The dictionary words are
  lowercased, so an upper-case `--tld` matches nothing (`UpperCaseTldMatchesNothing`).
- `find_tlds` compares the word as given, without lowercasing it.
- An empty TLD ends every word. `word[0:-0]` is the empty string, so every accepted
  word then yields the domain `.` (`EmptyTldGivesDots`). The prefix and the TLD
  together rebuild the word for a non-empty TLD (`DomainSplitsWord`); for an empty TLD
  only when the word is empty (`EmptyTldSplitsOnlyEmptyWord`).
- A reply containing "NOT AVAILABLE" also contains "AVAILABLE". The order of the
  checks decides it is not available.
- In 'any' mode a TLD file with nothing after its header line makes the closing
  progress-bar update divide by zero. The run then ends before anything is written to
  the log.

## Model

| member | source | states |
|---|---|---|
| Strings.Lower | domaintool/domaintool.py:57 | lowercasing keeps the length, maps each character by `LowerChar`, and leaves no upper-case letter |
| Strings.EndsWith | domaintool/domaintool.py:58 | `s.endswith(t)` holds iff `t` is no longer than `s` and each character of `t` equals the character at the same offset from the end of `s` |
| Strings.Contains | domaintool/domaintool.py:105-111 | a marker found in a reply is no longer than the reply, and the empty marker is found in every reply |
| Strings.ContainsIff | domaintool/domaintool.py:105-111 | the left-to-right substring scan holds exactly when the marker occurs at some position, both directions |
| Strings.ContainsTransitive | domaintool/domaintool.py:105-108 | a substring of a substring of a reply is a substring of the reply |
| Generation.GetTldList | domaintool/domaintool.py:33-40 | the TLD list has one entry per file line after the header, each the lowercased line, in file order |
| Generation.TldList | domaintool/domaintool.py:36-38 | the TLD list has one entry per file line after the header, and entry i is line i + 1 lowercased |
| Generation.FindTlds | domaintool/domaintool.py:42-50 | the result is the TLD list filtered to the entries the word ends with, in list order; every entry is a suffix of the word |
| Generation.Matching | domaintool/domaintool.py:46-48 | no more TLDs are kept than listed, and each kept TLD is on the list and ends the word |
| Generation.MatchingCount | domaintool/domaintool.py:46-48 | each TLD the word ends with is kept as many times as the list holds it, no other TLD is kept, and membership holds iff listed and a suffix |
| Generation.MatchingAppend | domaintool/domaintool.py:46-48 | matching a concatenated TLD list is matching each part, in order |
| Generation.GetDomains | domaintool/domaintool.py:52-63 | the loop returns exactly `Domains` of the dictionary lines: one domain per accepted line, in dictionary order |
| Generation.Domains | domaintool/domaintool.py:56-62 | the filter yields at most one domain per dictionary line, and every domain ends with the TLD |
| Generation.DropLast | domaintool/domaintool.py:57 | `line[0:-1]` is a prefix of the line, one character shorter, and empty for an empty line |
| Generation.Accepted | domaintool/domaintool.py:58-60 | an accepted word is at least as long as the TLD, holds no '-', and the length bounds admit it, so the minimum is at most the maximum |
| Generation.DomainFor | domaintool/domaintool.py:61 | the domain ends with the TLD, with a dot right before it, and what precedes the dot is a prefix of the word |
| Generation.SelectedComplete | domaintool/domaintool.py:56-60 | a line is selected iff its lowercased word ends with the TLD, holds no '-', and has a length within the bounds |
| Generation.SelectedIncreasing | domaintool/domaintool.py:56-62 | selected lines keep dictionary order |
| Generation.DomainsCount | domaintool/domaintool.py:56-62 | there are exactly as many domains as selected lines |
| Generation.DomainAt | domaintool/domaintool.py:56-62 | the k-th domain is the prefix of the k-th selected line's word, a dot, and the TLD, and that word passes the filter |
| Generation.DomainsWellFormed | domaintool/domaintool.py:58-61 | every domain comes from some dictionary line whose word passes the filter, as its prefix + "." + TLD |
| Generation.DomainsAppend | domaintool/domaintool.py:56-62 | filtering a concatenated dictionary is filtering each part, in order |
| Generation.Prefix | domaintool/domaintool.py:61 | `word[0:-len(tld)]` is a prefix of the word, of length `len(word) - len(tld)`, and empty when the TLD is empty or longer than the word |
| Generation.DomainSplitsWord | domaintool/domaintool.py:61 | for a non-empty TLD the word ends with, prefix + TLD is the word and the domain is the word with a dot before the TLD, one character longer |
| Generation.EmptyTldDomain | domaintool/domaintool.py:61 | an empty TLD ends every word and gives the domain "." |
| Generation.EmptyTldSplitsOnlyEmptyWord | domaintool/domaintool.py:61 | with an empty TLD, prefix + TLD is the word iff the word is empty |
| Generation.EmptyTldGivesDots | domaintool/domaintool.py:56-62 | with an empty TLD every domain produced is "." |
| Generation.UpperCaseTldMatchesNothing | domaintool/domaintool.py:57-58 | a TLD holding an upper-case letter yields no domain at all, because the words are lowercased and the TLD is not |
| Generation.Word | domaintool/domaintool.py:57 | the word is one character shorter than a non-empty line, and empty for an empty line |
| Generation.LineDomain | domaintool/domaintool.py:57-62 | one dictionary line contributes at most one domain, and that domain ends with the TLD |
| Generation.UpperCaseLine | domaintool/domaintool.py:57-61 | the line "CATHODE" is lowercased and gives "catho.de" for the TLD "de" |
| Generation.UnterminatedLine | domaintool/domaintool.py:57-58 | the line "cathode" without a newline loses its "e" and gives nothing for "de" |
| Generation.LastLineLosesLetter | domaintool/domaintool.py:55-62 | over the lines "CATHODE\n" and "cathode" the filter for "de" gives only "catho.de" |
| Generation.HyphenatedLine | domaintool/domaintool.py:58 | "hyphen-ated" gives no domain for any TLD |
| Generation.SadnesspartyLine | domaintool/domaintool.py:57-61 | "sadnessparty" gives "sadness.party" for "party" and "sadnesspar.ty" for "ty" |
| Generation.CathodeLine | domaintool/domaintool.py:57-61 | "cathode" gives "catho.de" for "de" and nothing for "party" |
| Generation.SadnesspartyNotDe | domaintool/domaintool.py:58 | "sadnessparty" gives nothing for "de" |
| Generation.DomainsTwo | domaintool/domaintool.py:56-62 | the filter over two lines is the first line's contribution, then the second's |
| Generation.DomainsThree | domaintool/domaintool.py:56-62 | the filter over three lines is the contributions of the lines, in order |
| Generation.ExampleDictionaryDe | domaintool/domaintool.py:52-63 | the dictionary "cathode", "sadnessparty", "hyphen-ated" gives ["catho.de"] for "de" |
| Generation.ExampleDictionaryParty | domaintool/domaintool.py:52-63 | the same dictionary gives ["sadness.party"] for "party" |
| Generation.FlattenAppend | domaintool/domaintool.py:163-168 | concatenating per-TLD results distributes over concatenation of the parts |
| Generation.FlattenMember | domaintool/domaintool.py:163-168 | a domain is in the concatenation iff it is in one of the parts |
| Generation.PerTld | domaintool/domaintool.py:163-164 | there is one filter result per TLD of the list |
| Generation.AnyDomains | domaintool/domaintool.py:163-168 | 'any' mode over an empty TLD list yields no candidate |
| Generation.FlattenBound | domaintool/domaintool.py:163-168 | TLD results of at most n domains each concatenate to at most n domains per TLD |
| Generation.AnyDomainsAppend | domaintool/domaintool.py:163-168 | 'any' mode over a concatenated TLD list is 'any' mode over each part, in order: the output is grouped by TLD |
| Generation.AnyDomainsSingle | domaintool/domaintool.py:163-168 | 'any' mode over one TLD is the filter for that TLD |
| Generation.AnyDomainsStep | domaintool/domaintool.py:163-168 | taking one more TLD of the list appends exactly that TLD's domains |
| Generation.AnyDomainsMember | domaintool/domaintool.py:163-168 | a domain is an 'any' mode candidate iff the filter produces it for some TLD of the list |
| Generation.AnyDomainsTwo | domaintool/domaintool.py:163-168 | 'any' mode over two TLDs is the first TLD's domains, then the second's |
| Generation.AnyModeExample | domaintool/domaintool.py:160-168 | with TLDs "party", "ty", the word "sadnessparty" gives both "sadness.party" and "sadnesspar.ty", in TLD order, and "hyphen-ated" gives none |
| Generation.EndToEndExample | domaintool/domaintool.py:160-168 | with TLDs "de", "party", the dictionary "cathode", "sadnessparty", "hyphen-ated" gives ["catho.de", "sadness.party"] |
| Generation.AppendEach | domaintool/domaintool.py:166-168 | the inner loop leaves the candidate list extended by the found domains, in order |
| Generation.CollectAny | domaintool/domaintool.py:162-168 | the 'any' loop returns the filter's output for each TLD of the list, concatenated in list order |
| Generation.CollectCandidates | domaintool/domaintool.py:158-173 | the candidates are the 'any' mode result when `--tld` is "any", otherwise the filter for the given TLD; the run divides by zero iff the mode is 'any' and the TLD file has no line after its header |
| Generation.Candidates | domaintool/domaintool.py:160-173 | in 'any' mode a TLD file with no line after its header gives no candidate and a longer one at most one candidate per TLD and dictionary line; otherwise there is at most one candidate per dictionary line |
| Checking.ClassifyText | domaintool/domaintool.py:104-115 | a reply's text never classifies as error or timeout |
| Checking.Classify | domaintool/domaintool.py:97-119 | the status is error iff the process failed and timeout iff it timed out |
| Checking.FirstFiring | domaintool/domaintool.py:105-112 | the index found is that of the first rule whose markers occur, with no earlier rule firing, or the table length when none fires |
| Checking.ClassifyFollowsRules | domaintool/domaintool.py:105-115 | the if/elif chain classifies every reply exactly as first-match over the table not_available, available, throttled, with unknown as default |
| Checking.NotAvailableWinsOverAvailable | domaintool/domaintool.py:105-110 | every reply containing "NOT AVAILABLE" also contains "AVAILABLE", and is classified not_available |
| Checking.MissingFirstLetter | domaintool/domaintool.py:105-111 | a reply lacking a marker's first character does not contain the marker |
| Checking.ClassifyExamples | domaintool/domaintool.py:105-110 | "active" and "NOT ALLOWED" classify as not_available, "is free" as available |
| Checking.MixedReplyExample | domaintool/domaintool.py:105-110 | a reply with both "active" and "AVAILABLE" classifies as not_available |
| Checking.ThrottledExample | domaintool/domaintool.py:105-112 | "exceeded" with no other marker classifies as throttled |
| Checking.LogLine | domaintool/domaintool.py:77-91 | a domain gets one log line when its status is not_available, available or unknown, and none otherwise |
| Checking.CheckLog | domaintool/domaintool.py:73-91 | the log never has more lines than there are domains |
| Checking.CheckLogAppend | domaintool/domaintool.py:73-91 | the log of a concatenated domain list is the log of each part, in order |
| Checking.CheckLogStep | domaintool/domaintool.py:73-91 | checking one more domain appends that domain's line |
| Checking.LoggedIndices | domaintool/domaintool.py:77-87 | every logged position is a valid domain position |
| Checking.LoggedIndicesComplete | domaintool/domaintool.py:77-91 | a domain is logged iff its status is not_available, available or unknown |
| Checking.LoggedIndicesIncreasing | domaintool/domaintool.py:73-91 | logged domains keep input order |
| Checking.CheckLogFromIndices | domaintool/domaintool.py:73-91 | the k-th log line is the fixed-format line of the k-th logged domain, and there are no other lines |
| Checking.Header | domaintool/domaintool.py:70 | the header is the timestamp between two newlines, two characters longer than the timestamp |
| Checking.RunUntil | domaintool/domaintool.py:69-95 | a run is complete iff it goes past the last domain; it sleeps at most once per domain and writes at most one chunk per domain after the header |
| Checking.RunUntilPrefix | domaintool/domaintool.py:73-93 | a run that ends earlier leaves a prefix of the log and no more sleeps |
| Checking.SleepRaises | domaintool/domaintool.py:93 | the sleep accepts the delay iff it is non-negative and its count of nanoseconds is below 2^63 |
| Checking.ToolStop | domaintool/domaintool.py:93 | `check_domains` stops before the end of the list iff the list is non-empty and the sleep raises |
| Checking.RunUntilFirst | domaintool/domaintool.py:69-93 | a run that stops at the first domain leaves the header and that domain's line, no sleep, and is not complete |
| Checking.CheckDomains | domaintool/domaintool.py:65-95 | the loop writes the header, then the line of each logged domain, and sleeps once per domain; when the sleep accepts the delay it completes with one sleep per domain, and when the sleep raises it stops after the first domain without sleeping |
| Checking.CheckLogThree | domaintool/domaintool.py:73-91 | the log of three checks is their three lines in order |
| Checking.NotAvailableLineExample | domaintool/domaintool.py:79 | the not-available lines of "ab.be" and "ado.be" are "ab.be is not available" and "ado.be is not available", each with a newline |
| Checking.AvailableLineExample | domaintool/domaintool.py:82 | the available line of "foredescri.be" is "foredescri.be is available" and a newline |
| Checking.UnknownLineExample | domaintool/domaintool.py:83-87 | the unknown line says "might be available", and a throttled domain gets no line |
| Checking.CheckExample | domaintool/domaintool.py:73-91 | the replies "active", "NOT ALLOWED", "is free" for ab.be, ado.be, foredescri.be log two not-available lines and one available line, in order |
| Tool.RunTool | domaintool/domaintool.py:156-175 | the run checks exactly the collected candidates, as `check_domains` does: complete with one sleep per candidate when the sleep accepts the delay, stopped after the first candidate when it raises; when the progress bar divides by zero nothing is written or checked |
| Tool.RunToolLog | domaintool/domaintool.py:69-93 | the log starts with the header; when the sleep accepts the delay it is followed by exactly one line per logged candidate, in candidate order, and when the sleep raises only by the first candidate's line |
| Legacy.FirstUnknown | domain-name-tool.py:88-103 | the position found has no unknown reply before it, and is an unknown reply unless it is the end |
| Legacy.FirstUnknownPast | domain-name-tool.py:88-103 | a non-unknown reply at or before the first unknown one lies strictly before it |
| Legacy.LegacyStop | domain-name-tool.py:100-109 | the script stops before the end only at an unknown reply or when the sleep raises; no reply before the stop is unknown, and it stops at the first domain whenever the sleep raises |
| Legacy.CheckLegacy | domain-name-tool.py:84-109 | the loop writes the same lines as the package, but stops right after the first unknown reply's line, or after the first domain when the sleep raises |
| Legacy.RunLegacy | domain-name-tool.py:72-109 | the script checks `Domains` of its dictionary for the one TLD given and stops at the first unknown reply, or after the first domain when the sleep raises |
| Legacy.LegacyAgreesWithoutUnknown | domain-name-tool.py:88-109 | the script stops where the package does iff the sleep raises or no reply is unknown, and then leaves the same log and sleeps |
| Legacy.LegacyLogIsPrefix | domain-name-tool.py:88-109 | the script's log is always a prefix of the package's log for the same candidates, with no more sleeps |
| Legacy.LegacyEndsAtFirstUnknown | domain-name-tool.py:100-103 | when the sleep accepts the delay and some reply is unknown, the last log line is the first unknown domain's "might be available" line; the run has slept once per earlier domain and is not complete |
| Legacy.UnknownReplyStopsScript | domain-name-tool.py:100-103 | an empty reply for "ab.be" ends the script after "ab.be might be available", with no sleep, before "ado.be" is checked, whatever the delay |

## Findings

| source | as written | input that shows it | evidently intended | confidence | as-written member | corrected member |
|---|---|---|---|---|---|---|
| domain-name-tool.py:103 | the unknown branch prints `process.stdout`, but `process` is only bound inside `check_domain`, so `main` raises NameError after writing the line | any candidate whose whois reply holds none of the markers, e.g. an empty reply (`Legacy.UnknownReplyStopsScript`) | print the reply and go on with the next candidate, as the package does at domaintool/domaintool.py:114 | high; not executed | Legacy.LegacyEndsAtFirstUnknown | Checking.CheckDomains |

## Left out

- Reading the dictionary and `top-level-domains.txt` is out of scope. The model takes
  their lines as input. The split done by `splitlines` and by file iteration is not
  modelled, and neither is a missing or unreadable file.
- The whois subprocess is out of scope. Its result for each candidate is an input
  `Outcome`, so the 1-second timeout and the `whois` command are not modelled.
  `CheckDomains`, `RunTool` and `RunLegacy` require one outcome per candidate.
- `datetime.now()` is the input `now`.
- Opening and closing `log.txt` are not modelled. The log is the sequence of chunks
  written to it, and every write is assumed to reach the file, including the last one
  before an exception.
- `time.sleep` is modelled only by its count and by the errors it raises for a
  negative delay and for one of 2^63 nanoseconds or more. The duration of the pause
  is not modelled. The overflow bound is taken on the exact value of the delay; the
  rounding of `delay * 10^9` to a float, which can move the bound by a fraction of a
  nanosecond, is not modelled. A NaN or infinite delay is not modelled either, since
  `real` has neither.
- The terminal output is not modelled: the `print` calls, the colour codes, the
  printed reply of an unknown domain, and `update_progress_bar`'s text. The one
  exception is the progress bar's division by zero, which is modelled.
- Argument parsing in `main` is not modelled; its results are parameters.
- The `KeyboardInterrupt` handler is not modelled, because interruption is an external
  event.
- The `DomainChecker` constructor is not modelled. Its fields never change after
  construction, so the length bounds become parameters. `dict_file` is replaced by
  the dictionary lines, and `chars` is never read.
- Strings.Lower: lowercases ASCII letters only, because Unicode case mapping is out of
  scope. Non-ASCII letters are left unchanged.
- The tests under `tests/` are not part of this model.
