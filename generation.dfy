/** Candidate generation of domaintool/domaintool.py: the TLD list, the TLDs a word ends
    with, the dictionary filter that turns `<prefix><tld>` words into `<prefix>.<tld>`
    domains, and the 'any' mode of `main` that runs the filter once per TLD.
    The contents of `top-level-domains.txt` and of the dictionary are passed in as
    sequences of lines; `DomainChecker`'s constant length bounds are plain parameters. */
module Generation {
  import opened Strings

  // ---------------------------------------------------------------------------
  // The TLD list

  /** The lines of the TLD file after its header line, each lowercased. `fileLines` are
      the file's lines as `splitlines` gives them, without line endings. */
  function TldList(fileLines: seq<string>): (r: seq<string>)
    ensures |r| == if |fileLines| == 0 then 0 else |fileLines| - 1
    ensures forall i :: 0 <= i < |r| ==> r[i] == Lower(fileLines[i + 1])
  {
    if |fileLines| == 0 then []
    else seq(|fileLines| - 1, i requires 0 <= i < |fileLines| - 1 => Lower(fileLines[i + 1]))
  }

  /** `get_tld_list`: appends the lowercased lines after the header, in file order. */
  method GetTldList(fileLines: seq<string>) returns (tldList: seq<string>)
    ensures |tldList| == if |fileLines| == 0 then 0 else |fileLines| - 1
    ensures tldList == TldList(fileLines)
  {
    tldList := [];
    if |fileLines| == 0 {
      return;
    }
    var rest := fileLines[1..];
    for k := 0 to |rest|
      invariant |tldList| == k
      invariant forall i :: 0 <= i < k ==> tldList[i] == Lower(rest[i])
    {
      tldList := tldList + [Lower(rest[k])];
    }
  }

  // ---------------------------------------------------------------------------
  // The TLDs a word ends with

  /** The entries of `tlds` that `word` ends with, in list order, duplicates kept. */
  function Matching(word: string, tlds: seq<string>): (r: seq<string>)
    ensures |r| <= |tlds|
    ensures forall t :: t in r ==> t in tlds && EndsWith(word, t)
  {
    if |tlds| == 0 then []
    else
      var last := tlds[|tlds| - 1];
      Matching(word, tlds[..|tlds| - 1]) + (if EndsWith(word, last) then [last] else [])
  }

  /** Matching keeps list order: it distributes over concatenation of TLD lists. */
  lemma {:induction false} MatchingAppend(word: string, a: seq<string>, b: seq<string>)
    ensures Matching(word, a + b) == Matching(word, a) + Matching(word, b)
    decreases |b|
  {
    if |b| == 0 {
      assert a + b == a;
    } else {
      var b' := b[..|b| - 1];
      assert (a + b)[..|a + b| - 1] == a + b';
      MatchingAppend(word, a, b');
    }
  }

  /** Every TLD the word ends with is kept as often as the list holds it; no other is. */
  lemma {:induction false} MatchingCount(word: string, tlds: seq<string>, t: string)
    ensures multiset(Matching(word, tlds))[t] == if EndsWith(word, t) then multiset(tlds)[t] else 0
    ensures t in Matching(word, tlds) <==> t in tlds && EndsWith(word, t)
  {
    if |tlds| == 0 {
    } else {
      var init := tlds[..|tlds| - 1];
      var last := tlds[|tlds| - 1];
      assert tlds == init + [last];
      MatchingCount(word, init, t);
      assert multiset(tlds) == multiset(init) + multiset{last};
    }
  }

  /** `find_tlds`: reads the TLD list, then appends every entry the word ends with.
      The word itself is compared as given, without lowercasing. */
  method FindTlds(word: string, tldFileLines: seq<string>) returns (tlds: seq<string>)
    ensures tlds == Matching(word, TldList(tldFileLines))
    ensures forall t :: t in tlds ==> EndsWith(word, t)
  {
    var tldList := GetTldList(tldFileLines);
    tlds := [];
    for k := 0 to |tldList|
      invariant tlds == Matching(word, tldList[..k])
    {
      assert tldList[..k + 1][..k] == tldList[..k];
      if EndsWith(word, tldList[k]) {
        tlds := tlds + [tldList[k]];
      }
    }
    assert tldList[..|tldList|] == tldList;
  }

  // ---------------------------------------------------------------------------
  // The dictionary filter

  /** `line[0:-1]`: every character but the last one; the empty line stays empty. */
  function DropLast(line: string): (r: string)
    ensures |r| == if |line| == 0 then 0 else |line| - 1
    ensures r <= line
  {
    if |line| == 0 then [] else line[..|line| - 1]
  }

  /** The word a dictionary line stands for: `line[0:-1].lower()`. */
  function Word(line: string): (w: string)
    ensures |w| == if |line| == 0 then 0 else |line| - 1
  {
    Lower(DropLast(line))
  }

  /** The filter of `get_domains`: the word ends with the TLD, holds no '-', and its full
      length lies within the bounds. */
  predicate Accepted(word: string, tld: string, lengthMin: int, lengthMax: int)
    ensures Accepted(word, tld, lengthMin, lengthMax) ==>
      |tld| <= |word| && lengthMin <= lengthMax && forall k :: 0 <= k < |word| ==> word[k] != '-'
  {
    EndsWith(word, tld) && '-' !in word && lengthMin <= |word| <= lengthMax
  }

  /** `word[0:-len(tld)]`. Python reads `-0` as `0`, so an empty TLD gives the empty
      prefix, as does a TLD longer than the word. */
  function Prefix(word: string, tld: string): (p: string)
    ensures |p| == if |tld| == 0 || |tld| > |word| then 0 else |word| - |tld|
    ensures p <= word
  {
    if |tld| == 0 || |tld| > |word| then [] else word[..|word| - |tld|]
  }

  /** `word[0:-len(tld)] + "." + tld`. */
  function DomainFor(word: string, tld: string): (d: string)
    ensures EndsWith(d, tld) && |d| > |tld| && d[|d| - |tld| - 1] == '.'
    ensures d[..|d| - |tld| - 1] <= word
  {
    Prefix(word, tld) + "." + tld
  }

  /** For a non-empty TLD the word ends with, the domain is the word with a dot put
      in front of the TLD. */
  lemma DomainSplitsWord(word: string, tld: string)
    requires EndsWith(word, tld) && |tld| > 0
    ensures Prefix(word, tld) + tld == word
    ensures DomainFor(word, tld) == word[..|word| - |tld|] + "." + word[|word| - |tld|..]
    ensures |DomainFor(word, tld)| == |word| + 1
  {
    assert word == word[..|word| - |tld|] + word[|word| - |tld|..];
  }

  /** An empty TLD ends every word, and every domain built for it is just ".". */
  lemma EmptyTldDomain(word: string)
    ensures EndsWith(word, "")
    ensures DomainFor(word, "") == "."
  {
    assert word[|word|..] == [];
  }

  /** With an empty TLD the prefix and the TLD rebuild the word exactly when the word is
      empty, as the word of the dictionary line "\n" is. */
  lemma EmptyTldSplitsOnlyEmptyWord(word: string)
    ensures Prefix(word, "") + "" == word <==> word == []
  {
  }

  /** What one dictionary line contributes: its domain when its word passes the filter. */
  function LineDomain(line: string, tld: string, lengthMin: int, lengthMax: int): (r: seq<string>)
    ensures |r| <= 1
    ensures forall d :: d in r ==> EndsWith(d, tld)
  {
    var w := Word(line);
    if Accepted(w, tld, lengthMin, lengthMax) then [DomainFor(w, tld)] else []
  }

  /** `get_domains(tld)` over the dictionary's lines: at most one domain per line, in
      dictionary order. */
  function Domains(lines: seq<string>, tld: string, lengthMin: int, lengthMax: int): (r: seq<string>)
    ensures |r| <= |lines|
    ensures forall d :: d in r ==> EndsWith(d, tld)
  {
    if |lines| == 0 then []
    else
      Domains(lines[..|lines| - 1], tld, lengthMin, lengthMax)
        + LineDomain(lines[|lines| - 1], tld, lengthMin, lengthMax)
  }

  /** The indices of the dictionary lines whose word passes the filter, in order. */
  function Selected(lines: seq<string>, tld: string, lengthMin: int, lengthMax: int): (r: seq<nat>)
    ensures forall k :: 0 <= k < |r| ==> r[k] < |lines|
  {
    if |lines| == 0 then []
    else
      Selected(lines[..|lines| - 1], tld, lengthMin, lengthMax)
        + (if Accepted(Word(lines[|lines| - 1]), tld, lengthMin, lengthMax) then [|lines| - 1] else [])
  }

  /** The selected lines are taken in dictionary order. */
  lemma {:induction false} SelectedIncreasing(lines: seq<string>, tld: string, lengthMin: int, lengthMax: int)
    ensures forall k, m :: 0 <= k < m < |Selected(lines, tld, lengthMin, lengthMax)| ==>
      Selected(lines, tld, lengthMin, lengthMax)[k] < Selected(lines, tld, lengthMin, lengthMax)[m]
  {
    if |lines| > 0 {
      SelectedIncreasing(lines[..|lines| - 1], tld, lengthMin, lengthMax);
    }
  }

  /** A line is selected exactly when its word passes the filter. */
  lemma {:induction false} SelectedComplete(lines: seq<string>, tld: string, lengthMin: int, lengthMax: int, i: int)
    requires 0 <= i < |lines|
    ensures i in Selected(lines, tld, lengthMin, lengthMax) <==> Accepted(Word(lines[i]), tld, lengthMin, lengthMax)
  {
    var init := lines[..|lines| - 1];
    var s0 := Selected(init, tld, lengthMin, lengthMax);
    if i < |lines| - 1 {
      SelectedComplete(init, tld, lengthMin, lengthMax, i);
      assert init[i] == lines[i];
    } else {
      assert i !in s0;
    }
  }

  /** There are as many domains as selected lines. */
  lemma {:induction false} DomainsCount(lines: seq<string>, tld: string, lengthMin: int, lengthMax: int)
    ensures |Domains(lines, tld, lengthMin, lengthMax)| == |Selected(lines, tld, lengthMin, lengthMax)|
  {
    if |lines| > 0 {
      DomainsCount(lines[..|lines| - 1], tld, lengthMin, lengthMax);
    }
  }

  /** The k-th domain is built from the word of the k-th selected line, which passes
      the filter. */
  lemma {:induction false} DomainAt(lines: seq<string>, tld: string, lengthMin: int, lengthMax: int, k: int)
    requires 0 <= k < |Selected(lines, tld, lengthMin, lengthMax)|
    ensures k < |Domains(lines, tld, lengthMin, lengthMax)|
    ensures Accepted(Word(lines[Selected(lines, tld, lengthMin, lengthMax)[k]]), tld, lengthMin, lengthMax)
    ensures Domains(lines, tld, lengthMin, lengthMax)[k]
      == DomainFor(Word(lines[Selected(lines, tld, lengthMin, lengthMax)[k]]), tld)
  {
    var n := |lines| - 1;
    var init := lines[..n];
    DomainsCount(init, tld, lengthMin, lengthMax);
    var s0 := Selected(init, tld, lengthMin, lengthMax);
    var d0 := Domains(init, tld, lengthMin, lengthMax);
    var s := Selected(lines, tld, lengthMin, lengthMax);
    var d := Domains(lines, tld, lengthMin, lengthMax);
    var w := Word(lines[n]);
    var acc := Accepted(w, tld, lengthMin, lengthMax);
    assert s == s0 + (if acc then [n] else []) by { SelectedUnfold(lines, tld, lengthMin, lengthMax); }
    assert d == d0 + (if acc then [DomainFor(w, tld)] else []) by { DomainsUnfold(lines, tld, lengthMin, lengthMax); }
    if k < |s0| {
      DomainAt(init, tld, lengthMin, lengthMax, k);
      assert s[k] == s0[k] && d[k] == d0[k];
      assert lines[s[k]] == init[s0[k]];
    } else {
      assert acc && s[k] == n && d[k] == DomainFor(w, tld);
    }
  }

  /** One step of Selected: the selection of all but the last line, then the last line
      when its word passes the filter. */
  lemma SelectedUnfold(lines: seq<string>, tld: string, lengthMin: int, lengthMax: int)
    requires |lines| > 0
    ensures Selected(lines, tld, lengthMin, lengthMax)
      == Selected(lines[..|lines| - 1], tld, lengthMin, lengthMax)
        + (if Accepted(Word(lines[|lines| - 1]), tld, lengthMin, lengthMax) then [|lines| - 1] else [])
  {
  }

  /** One step of Domains, with the last line's contribution written out. */
  lemma DomainsUnfold(lines: seq<string>, tld: string, lengthMin: int, lengthMax: int)
    requires |lines| > 0
    ensures Domains(lines, tld, lengthMin, lengthMax)
      == Domains(lines[..|lines| - 1], tld, lengthMin, lengthMax)
        + (if Accepted(Word(lines[|lines| - 1]), tld, lengthMin, lengthMax)
           then [DomainFor(Word(lines[|lines| - 1]), tld)] else [])
  {
  }

  /** Every domain comes from a word that passes the filter: it ends with the TLD, holds
      no '-', and its length lies within the bounds. */
  lemma DomainsWellFormed(lines: seq<string>, tld: string, lengthMin: int, lengthMax: int, k: int)
    requires 0 <= k < |Domains(lines, tld, lengthMin, lengthMax)|
    ensures exists i :: (0 <= i < |lines|
      && Accepted(Word(lines[i]), tld, lengthMin, lengthMax)
      && Domains(lines, tld, lengthMin, lengthMax)[k] == Prefix(Word(lines[i]), tld) + "." + tld)
  {
    DomainsCount(lines, tld, lengthMin, lengthMax);
    DomainAt(lines, tld, lengthMin, lengthMax, k);
    var i := Selected(lines, tld, lengthMin, lengthMax)[k];
    assert Accepted(Word(lines[i]), tld, lengthMin, lengthMax);
  }

  /** Dictionary order: the filter distributes over concatenation of line sequences. */
  lemma {:induction false} DomainsAppend(a: seq<string>, b: seq<string>, tld: string, lengthMin: int, lengthMax: int)
    ensures Domains(a + b, tld, lengthMin, lengthMax)
      == Domains(a, tld, lengthMin, lengthMax) + Domains(b, tld, lengthMin, lengthMax)
    decreases |b|
  {
    if |b| == 0 {
      assert a + b == a;
    } else {
      var b' := b[..|b| - 1];
      assert (a + b)[..|a + b| - 1] == a + b';
      DomainsAppend(a, b', tld, lengthMin, lengthMax);
    }
  }

  /** With an empty TLD every accepted line yields the domain ".". */
  lemma {:induction false} EmptyTldGivesDots(lines: seq<string>, lengthMin: int, lengthMax: int)
    ensures forall d :: d in Domains(lines, "", lengthMin, lengthMax) ==> d == "."
  {
    if |lines| > 0 {
      EmptyTldGivesDots(lines[..|lines| - 1], lengthMin, lengthMax);
      EmptyTldDomain(Word(lines[|lines| - 1]));
    }
  }

  /** A TLD with an upper-case letter matches no word, since words are lowercased and
      the TLD is not: `get_domains` then returns nothing. */
  lemma {:induction false} UpperCaseTldMatchesNothing(lines: seq<string>, tld: string, lengthMin: int, lengthMax: int, i: int)
    requires 0 <= i < |tld| && IsUpper(tld[i])
    ensures Domains(lines, tld, lengthMin, lengthMax) == []
  {
    if |lines| > 0 {
      UpperCaseTldMatchesNothing(lines[..|lines| - 1], tld, lengthMin, lengthMax, i);
    }
  }

  /** `get_domains`: reads the dictionary line by line and appends one domain for each
      line whose word passes the filter. */
  method GetDomains(dictLines: seq<string>, tld: string, lengthMin: int, lengthMax: int)
    returns (domains: seq<string>)
    ensures domains == Domains(dictLines, tld, lengthMin, lengthMax)
  {
    domains := [];
    for k := 0 to |dictLines|
      invariant domains == Domains(dictLines[..k], tld, lengthMin, lengthMax)
    {
      assert dictLines[..k + 1][..k] == dictLines[..k];
      DomainsUnfold(dictLines[..k + 1], tld, lengthMin, lengthMax);
      var line := Lower(DropLast(dictLines[k]));
      if EndsWith(line, tld) && '-' !in line {
        if |line| >= lengthMin && |line| <= lengthMax {
          var domain := Prefix(line, tld) + "." + tld;
          domains := domains + [domain];
        }
      }
    }
    assert dictLines[..|dictLines|] == dictLines;
  }

  // ---------------------------------------------------------------------------
  // The candidate list of `main`

  /** The parts joined end to end, in order. */
  function Flatten(parts: seq<seq<string>>): seq<string> {
    if |parts| == 0 then [] else Flatten(parts[..|parts| - 1]) + parts[|parts| - 1]
  }

  /** Flattening distributes over concatenation of the parts. */
  lemma {:induction false} FlattenAppend(p: seq<seq<string>>, q: seq<seq<string>>)
    ensures Flatten(p + q) == Flatten(p) + Flatten(q)
    decreases |q|
  {
    if |q| == 0 {
      assert p + q == p;
    } else {
      var q' := q[..|q| - 1];
      assert (p + q)[..|p + q| - 1] == p + q';
      FlattenAppend(p, q');
    }
  }

  /** An element is in the flattened sequence exactly when it is in one of the parts. */
  lemma {:induction false} FlattenMember(parts: seq<seq<string>>, d: string)
    ensures d in Flatten(parts) <==> exists j :: 0 <= j < |parts| && d in parts[j]
  {
    if |parts| > 0 {
      var init := parts[..|parts| - 1];
      FlattenMember(init, d);
      forall j | 0 <= j < |init| ensures init[j] == parts[j] { }
    }
  }

  /** The filter's output for each TLD of the list, in list order. */
  function PerTld(dictLines: seq<string>, tlds: seq<string>, lengthMin: int, lengthMax: int): (r: seq<seq<string>>)
    ensures |r| == |tlds|
  {
    seq(|tlds|, j requires 0 <= j < |tlds| => Domains(dictLines, tlds[j], lengthMin, lengthMax))
  }

  /** Parts of at most `n` elements each flatten to at most `n` per part. */
  lemma {:induction false} FlattenBound(parts: seq<seq<string>>, n: nat)
    requires forall j :: 0 <= j < |parts| ==> |parts[j]| <= n
    ensures |Flatten(parts)| <= |parts| * n
    decreases |parts|
  {
    if |parts| > 0 {
      FlattenBound(parts[..|parts| - 1], n);
      assert |parts| * n == (|parts| - 1) * n + n;
    }
  }

  /** 'any' mode: the filter's output for each TLD, concatenated in TLD-list order. */
  function AnyDomains(dictLines: seq<string>, tlds: seq<string>, lengthMin: int, lengthMax: int): (r: seq<string>)
    ensures |tlds| == 0 ==> r == []
  {
    Flatten(PerTld(dictLines, tlds, lengthMin, lengthMax))
  }

  /** The output is grouped by TLD: it distributes over concatenation of TLD lists. */
  lemma AnyDomainsAppend(dictLines: seq<string>, a: seq<string>, b: seq<string>, lengthMin: int, lengthMax: int)
    ensures AnyDomains(dictLines, a + b, lengthMin, lengthMax)
      == AnyDomains(dictLines, a, lengthMin, lengthMax) + AnyDomains(dictLines, b, lengthMin, lengthMax)
  {
    var pa, pb := PerTld(dictLines, a, lengthMin, lengthMax), PerTld(dictLines, b, lengthMin, lengthMax);
    var pab := PerTld(dictLines, a + b, lengthMin, lengthMax);
    forall j | 0 <= j < |pab|
      ensures pab[j] == (pa + pb)[j]
    {
      if j < |a| {
        assert (a + b)[j] == a[j];
        assert pab[j] == pa[j];
      } else {
        assert (a + b)[j] == b[j - |a|];
        assert pab[j] == pb[j - |a|];
      }
    }
    assert pab == pa + pb;
    FlattenAppend(pa, pb);
  }

  /** A domain is a candidate in 'any' mode exactly when the filter produces it for some
      TLD of the list. */
  lemma AnyDomainsMember(dictLines: seq<string>, tlds: seq<string>, lengthMin: int, lengthMax: int, d: string)
    ensures d in AnyDomains(dictLines, tlds, lengthMin, lengthMax)
      <==> exists j :: 0 <= j < |tlds| && d in Domains(dictLines, tlds[j], lengthMin, lengthMax)
  {
    var parts := PerTld(dictLines, tlds, lengthMin, lengthMax);
    FlattenMember(parts, d);
    if d in AnyDomains(dictLines, tlds, lengthMin, lengthMax) {
      var j :| 0 <= j < |parts| && d in parts[j];
      assert d in Domains(dictLines, tlds[j], lengthMin, lengthMax);
    }
    if exists j :: 0 <= j < |tlds| && d in Domains(dictLines, tlds[j], lengthMin, lengthMax) {
      var j :| 0 <= j < |tlds| && d in Domains(dictLines, tlds[j], lengthMin, lengthMax);
      assert d in parts[j];
    }
  }

  /** The candidate list of `main`: with `--tld any` every TLD of the list in turn,
      otherwise the one TLD given, taken as written. */
  function Candidates(tldArg: string, tldFileLines: seq<string>, dictLines: seq<string>, lengthMin: int, lengthMax: int): (r: seq<string>)
    ensures tldArg == "any" && |tldFileLines| <= 1 ==> r == []
    ensures tldArg == "any" && |tldFileLines| > 0 ==> |r| <= (|tldFileLines| - 1) * |dictLines|
    ensures tldArg != "any" ==> |r| <= |dictLines|
  {
    FlattenBound(PerTld(dictLines, TldList(tldFileLines), lengthMin, lengthMax), |dictLines|);
    if tldArg == "any" then AnyDomains(dictLines, TldList(tldFileLines), lengthMin, lengthMax)
    else Domains(dictLines, tldArg, lengthMin, lengthMax)
  }

  /** 'any' mode over a single TLD is the filter for that TLD. */
  lemma AnyDomainsSingle(dictLines: seq<string>, tld: string, lengthMin: int, lengthMax: int)
    ensures AnyDomains(dictLines, [tld], lengthMin, lengthMax) == Domains(dictLines, tld, lengthMin, lengthMax)
  {
    var p := PerTld(dictLines, [tld], lengthMin, lengthMax);
    var d := Domains(dictLines, tld, lengthMin, lengthMax);
    assert p == [d];
    assert p[..0] == [];
    assert Flatten(p) == Flatten([]) + d;
  }

  /** Taking one more TLD of the list appends that TLD's domains. */
  lemma AnyDomainsStep(dictLines: seq<string>, tlds: seq<string>, k: nat, lengthMin: int, lengthMax: int)
    requires k < |tlds|
    ensures AnyDomains(dictLines, tlds[..k + 1], lengthMin, lengthMax)
      == AnyDomains(dictLines, tlds[..k], lengthMin, lengthMax) + Domains(dictLines, tlds[k], lengthMin, lengthMax)
  {
    assert tlds[..k + 1] == tlds[..k] + [tlds[k]];
    AnyDomainsAppend(dictLines, tlds[..k], [tlds[k]], lengthMin, lengthMax);
    AnyDomainsSingle(dictLines, tlds[k], lengthMin, lengthMax);
  }

  /** The inner loop of the 'any' branch: append the found domains one by one. */
  method AppendEach(domains: seq<string>, found: seq<string>) returns (r: seq<string>)
    ensures r == domains + found
  {
    r := domains;
    for m := 0 to |found|
      invariant r == domains + found[..m]
    {
      assert found[..m + 1] == found[..m] + [found[m]];
      AppendAssoc(domains, found[..m], [found[m]]);
      r := r + [found[m]];
    }
    assert found[..|found|] == found;
  }

  /** The 'any' branch of `main`: for each TLD of the list in order, append every domain
      the filter finds for it. */
  method CollectAny(dictLines: seq<string>, tldList: seq<string>, lengthMin: int, lengthMax: int)
    returns (domains: seq<string>)
    ensures domains == AnyDomains(dictLines, tldList, lengthMin, lengthMax)
  {
    domains := [];
    for k := 0 to |tldList|
      invariant domains == AnyDomains(dictLines, tldList[..k], lengthMin, lengthMax)
    {
      var found := GetDomains(dictLines, tldList[k], lengthMin, lengthMax);
      AnyDomainsStep(dictLines, tldList, k, lengthMin, lengthMax);
      domains := AppendEach(domains, found);
    }
    assert tldList[..|tldList|] == tldList;
  }

  /** The candidate collection in `main`. In 'any' mode the closing call
      `update_progress_bar(len(tld_list), len(tld_list))` divides by the length of the TLD
      list, so a TLD file holding no line after its header ends the run with
      ZeroDivisionError before any check; `divisionByZero` reports that. */
  method CollectCandidates(tldArg: string, tldFileLines: seq<string>, dictLines: seq<string>, lengthMin: int, lengthMax: int)
    returns (domains: seq<string>, divisionByZero: bool)
    ensures divisionByZero <==> tldArg == "any" && |tldFileLines| <= 1
    ensures domains == Candidates(tldArg, tldFileLines, dictLines, lengthMin, lengthMax)
  {
    divisionByZero := false;
    if tldArg == "any" {
      var tldList := GetTldList(tldFileLines);
      domains := CollectAny(dictLines, tldList, lengthMin, lengthMax);
      if |tldList| == 0 {
        divisionByZero := true;
      }
    } else {
      domains := GetDomains(dictLines, tldArg, lengthMin, lengthMax);
    }
  }

  // ---------------------------------------------------------------------------
  // Worked examples

  /** The filter over two lines is what each line contributes, in order. */
  lemma DomainsTwo(l0: string, l1: string, tld: string, lengthMin: int, lengthMax: int)
    ensures Domains([l0, l1], tld, lengthMin, lengthMax)
      == LineDomain(l0, tld, lengthMin, lengthMax) + LineDomain(l1, tld, lengthMin, lengthMax)
  {
    var lines := [l0, l1];
    assert lines[..1] == [l0] && lines[..1][..0] == [];
  }

  /** 'any' mode over two TLDs is the filter for the first, then for the second. */
  lemma AnyDomainsTwo(dictLines: seq<string>, t0: string, t1: string, lengthMin: int, lengthMax: int)
    ensures AnyDomains(dictLines, [t0, t1], lengthMin, lengthMax)
      == Domains(dictLines, t0, lengthMin, lengthMax) + Domains(dictLines, t1, lengthMin, lengthMax)
  {
    assert [t0, t1] == [t0] + [t1];
    AnyDomainsAppend(dictLines, [t0], [t1], lengthMin, lengthMax);
    AnyDomainsSingle(dictLines, t0, lengthMin, lengthMax);
    AnyDomainsSingle(dictLines, t1, lengthMin, lengthMax);
  }

  /** Upper-case letters are lowercased before matching. */
  lemma UpperCaseLine(line: string)
    requires line == "CATHODE\n"
    ensures LineDomain(line, "de", 1, 20) == ["catho.de"]
  {
    var w := Word(line);
    assert DropLast(line) == "CATHODE";
    assert w == "cathode" by {
      assert w[0] == 'c' && w[1] == 'a' && w[2] == 't' && w[3] == 'h';
      assert w[4] == 'o' && w[5] == 'd' && w[6] == 'e';
    }
    assert EndsWith(w, "de");
    assert Prefix(w, "de") == "catho";
    assert DomainFor(w, "de") == "catho.de";
    assert Accepted(w, "de", 1, 20);
  }

  /** A line without a newline loses its last letter and no longer ends with "de". */
  lemma UnterminatedLine(line: string)
    requires line == "cathode"
    ensures LineDomain(line, "de", 1, 20) == []
  {
    var w := Word(line);
    assert DropLast(line) == "cathod";
    assert w == "cathod";
    assert !EndsWith(w, "de");
  }

  /** A word ending with two TLDs gives one domain for each. */
  lemma SadnesspartyLine()
    ensures LineDomain("sadnessparty\n", "party", 1, 20) == ["sadness.party"]
    ensures LineDomain("sadnessparty\n", "ty", 1, 20) == ["sadnesspar.ty"]
  {
    assert Word("sadnessparty\n") == "sadnessparty";
    assert EndsWith("sadnessparty", "party") && EndsWith("sadnessparty", "ty");
    assert Prefix("sadnessparty", "party") == "sadness";
    assert Prefix("sadnessparty", "ty") == "sadnesspar";
    assert DomainFor("sadnessparty", "party") == "sadness.party";
    assert DomainFor("sadnessparty", "ty") == "sadnesspar.ty";
  }

  /** A hyphenated word gives no domain, whatever the TLD. */
  lemma HyphenatedLine(tld: string)
    ensures LineDomain("hyphen-ated\n", tld, 1, 20) == []
  {
    assert Word("hyphen-ated\n") == "hyphen-ated";
    assert "hyphen-ated"[6] == '-';
  }

  /** Upper-case lines are lowercased before matching, and a final line without a
      newline loses its last letter and no longer ends with "de". */
  lemma LastLineLosesLetter(lines: seq<string>)
    requires lines == ["CATHODE\n", "cathode"]
    ensures Domains(lines, "de", 1, 20) == ["catho.de"]
  {
    assert lines == [lines[0], lines[1]];
    DomainsTwo(lines[0], lines[1], "de", 1, 20);
    UpperCaseLine(lines[0]);
    UnterminatedLine(lines[1]);
  }

  /** A word matching two TLDs yields one domain per TLD, grouped in TLD-list order, and
      a hyphenated word yields none. */
  lemma AnyModeExample(lines: seq<string>, tlds: seq<string>)
    requires lines == ["sadnessparty\n", "hyphen-ated\n"]
    requires tlds == ["party", "ty"]
    ensures AnyDomains(lines, tlds, 1, 20) == ["sadness.party", "sadnesspar.ty"]
  {
    assert lines == [lines[0], lines[1]] && tlds == [tlds[0], tlds[1]];
    AnyDomainsTwo(lines, tlds[0], tlds[1], 1, 20);
    DomainsTwo(lines[0], lines[1], tlds[0], 1, 20);
    DomainsTwo(lines[0], lines[1], tlds[1], 1, 20);
    SadnesspartyLine();
    HyphenatedLine(tlds[0]);
    HyphenatedLine(tlds[1]);
  }

  /** The filter over three lines is what each line contributes, in order. */
  lemma DomainsThree(l0: string, l1: string, l2: string, tld: string, lengthMin: int, lengthMax: int)
    ensures Domains([l0, l1, l2], tld, lengthMin, lengthMax)
      == LineDomain(l0, tld, lengthMin, lengthMax) + LineDomain(l1, tld, lengthMin, lengthMax)
        + LineDomain(l2, tld, lengthMin, lengthMax)
  {
    var lines := [l0, l1, l2];
    assert lines[..2] == [l0, l1];
    DomainsTwo(l0, l1, tld, lengthMin, lengthMax);
    DomainsUnfold(lines, tld, lengthMin, lengthMax);
  }

  /** "cathode" gives "catho.de" for the TLD "de" and nothing for "party". */
  lemma CathodeLine(line: string)
    requires line == "cathode\n"
    ensures LineDomain(line, "de", 1, 20) == ["catho.de"]
    ensures LineDomain(line, "party", 1, 20) == []
  {
    var w := Word(line);
    assert DropLast(line) == "cathode";
    assert w == "cathode";
    assert Prefix(w, "de") == "catho";
    assert DomainFor(w, "de") == "catho.de";
    assert w[|w| - 5..] != "party" by { assert w[|w| - 5..][0] == 't'; }
  }

  /** "sadnessparty" does not end with "de". */
  lemma SadnesspartyNotDe(line: string)
    requires line == "sadnessparty\n"
    ensures LineDomain(line, "de", 1, 20) == []
  {
    var w := Word(line);
    assert DropLast(line) == "sadnessparty";
    assert w == "sadnessparty";
    assert w[|w| - 2..] != "de" by { assert w[|w| - 2..][0] == 't'; }
  }

  /** The dictionary of the end-to-end example, filtered for "de". */
  lemma ExampleDictionaryDe(lines: seq<string>)
    requires lines == ["cathode\n", "sadnessparty\n", "hyphen-ated\n"]
    ensures Domains(lines, "de", 1, 20) == ["catho.de"]
  {
    assert lines == [lines[0], lines[1], lines[2]];
    DomainsThree(lines[0], lines[1], lines[2], "de", 1, 20);
    CathodeLine(lines[0]);
    SadnesspartyNotDe(lines[1]);
    HyphenatedLine("de");
  }

  /** The dictionary of the end-to-end example, filtered for "party". */
  lemma ExampleDictionaryParty(lines: seq<string>)
    requires lines == ["cathode\n", "sadnessparty\n", "hyphen-ated\n"]
    ensures Domains(lines, "party", 1, 20) == ["sadness.party"]
  {
    assert lines == [lines[0], lines[1], lines[2]];
    DomainsThree(lines[0], lines[1], lines[2], "party", 1, 20);
    CathodeLine(lines[0]);
    SadnesspartyLine();
    HyphenatedLine("party");
  }

  /** End to end over the TLDs "de" and "party": the dictionary "cathode",
      "sadnessparty", "hyphen-ated" gives "catho.de" and "sadness.party"; the
      hyphenated word gives nothing. */
  lemma EndToEndExample(lines: seq<string>, tlds: seq<string>)
    requires lines == ["cathode\n", "sadnessparty\n", "hyphen-ated\n"]
    requires tlds == ["de", "party"]
    ensures AnyDomains(lines, tlds, 1, 20) == ["catho.de", "sadness.party"]
  {
    assert tlds == [tlds[0], tlds[1]];
    AnyDomainsTwo(lines, tlds[0], tlds[1], 1, 20);
    ExampleDictionaryDe(lines);
    ExampleDictionaryParty(lines);
  }
}
