/**
  The counting loop of `EmailAnalyzer.main`: one pass over the lines, a running `totalEmails`, the
  maps `domainCounts` and `subjectKeywordCounts`, and a warning in the log for every line the
  parser rejects.
*/
module Aggregator {
  import opened Options
  import opened LineParser

  /** The parser's verdict on each line, in input order. */
  function ParseAll(lines: seq<string>): (r: seq<Option<Record>>)
    ensures |r| == |lines|
    decreases |lines|
  {
    if lines == [] then [] else ParseAll(lines[..|lines| - 1]) + [ParseLine(lines[|lines| - 1])]
  }

  /** The records among the verdicts, in order. */
  function AcceptedIn(verdicts: seq<Option<Record>>): seq<Record>
    decreases |verdicts|
  {
    if verdicts == [] then []
    else
      var init := AcceptedIn(verdicts[..|verdicts| - 1]);
      match verdicts[|verdicts| - 1]
      case Some(rec) => init + [rec]
      case None => init
  }

  /** The lines whose verdict is None, in order. */
  function RejectedIn(lines: seq<string>, verdicts: seq<Option<Record>>): seq<string>
    requires |verdicts| == |lines|
    decreases |lines|
  {
    if lines == [] then []
    else
      var init := RejectedIn(lines[..|lines| - 1], verdicts[..|lines| - 1]);
      if verdicts[|lines| - 1].None? then init + [lines[|lines| - 1]] else init
  }

  /** The records of the accepted lines, in input order. */
  function Accepted(lines: seq<string>): seq<Record> {
    AcceptedIn(ParseAll(lines))
  }

  /** The rejected lines, in input order. */
  function Rejected(lines: seq<string>): seq<string> {
    RejectedIn(lines, ParseAll(lines))
  }

  function Domains(recs: seq<Record>): seq<string> {
    seq(|recs|, i requires 0 <= i < |recs| => recs[i].domain)
  }

  function Keywords(recs: seq<Record>): seq<string> {
    seq(|recs|, i requires 0 <= i < |recs| => recs[i].subjectKeyword)
  }

  /** `m.put(k, m.getOrDefault(k, 0) + 1)` */
  function Bump(m: map<string, nat>, k: string): map<string, nat> {
    m[k := GetOrDefault(m, k, 0) + 1]
  }

  /** The map that bumping once for each key of `keys`, in order, builds from the empty map. */
  function Tally(keys: seq<string>): map<string, nat>
    decreases |keys|
  {
    if keys == [] then map[] else Bump(Tally(keys[..|keys| - 1]), keys[|keys| - 1])
  }

  /** How often `x` occurs in `xs`. */
  function Occurrences(xs: seq<string>, x: string): nat
    decreases |xs|
  {
    if xs == [] then 0
    else Occurrences(xs[..|xs| - 1], x) + (if xs[|xs| - 1] == x then 1 else 0)
  }

  /** A tally holds exactly the keys that occur, each with the number of its occurrences. */
  lemma {:induction false} TallyCounts(keys: seq<string>)
    ensures forall x :: x in Tally(keys) <==> x in keys
    ensures forall x :: x in Tally(keys) ==> Tally(keys)[x] == Occurrences(keys, x) >= 1
  {
    if keys != [] {
      var init := keys[..|keys| - 1];
      TallyCounts(init);
      assert keys == init + [keys[|keys| - 1]];
      forall x ensures x in keys <==> x in init || x == keys[|keys| - 1] {
      }
      forall x | x !in init ensures Occurrences(init, x) == 0 {
        OccurrencesAbsent(init, x);
      }
    }
  }

  lemma {:induction false} OccurrencesAbsent(xs: seq<string>, x: string)
    requires x !in xs
    ensures Occurrences(xs, x) == 0
  {
    if xs != [] {
      assert x !in xs[..|xs| - 1];
      OccurrencesAbsent(xs[..|xs| - 1], x);
    }
  }

  predicate NoDuplicates(keys: seq<string>) {
    forall i, j :: 0 <= i < j < |keys| ==> keys[i] != keys[j]
  }

  /** `keys` lists every element of `s` exactly once: an iteration order of a map with key set `s`. */
  ghost predicate IsEnumeration(keys: seq<string>, s: set<string>) {
    NoDuplicates(keys) && (forall k :: k in keys <==> k in s)
  }

  /** The sum of the counts stored under `keys` (an absent key adds nothing). */
  function SumOver(m: map<string, nat>, keys: seq<string>): nat
    decreases |keys|
  {
    if keys == [] then 0 else (if keys[0] in m then m[keys[0]] else 0) + SumOver(m, keys[1..])
  }

  /** How many elements of `xs` lie in `s`. */
  function CountIn(xs: seq<string>, s: set<string>): nat
    decreases |xs|
  {
    if xs == [] then 0 else CountIn(xs[..|xs| - 1], s) + (if xs[|xs| - 1] in s then 1 else 0)
  }

  /** Bumping one key raises the sum over a duplicate-free key list by one exactly when the key is listed. */
  lemma {:induction false} SumOverBump(m: map<string, nat>, k: string, keys: seq<string>)
    requires NoDuplicates(keys)
    ensures SumOver(Bump(m, k), keys) == SumOver(m, keys) + (if k in keys then 1 else 0)
  {
    if keys != [] {
      var rest := keys[1..];
      assert NoDuplicates(rest) by {
        forall i, j | 0 <= i < j < |rest| ensures rest[i] != rest[j] {
          assert rest[i] == keys[i + 1] && rest[j] == keys[j + 1];
        }
      }
      SumOverBump(m, k, rest);
      if keys[0] == k {
        assert k !in rest by {
          forall i | 0 <= i < |rest| ensures rest[i] != k {
            assert rest[i] == keys[i + 1];
          }
        }
      }
      assert k in keys <==> k == keys[0] || k in rest;
    }
  }

  lemma {:induction false} SumOverTally(xs: seq<string>, keys: seq<string>)
    requires NoDuplicates(keys)
    ensures SumOver(Tally(xs), keys) == CountIn(xs, set k | k in keys)
  {
    if xs == [] {
      SumOverEmpty(keys);
    } else {
      SumOverTally(xs[..|xs| - 1], keys);
      SumOverBump(Tally(xs[..|xs| - 1]), xs[|xs| - 1], keys);
    }
  }

  lemma {:induction false} SumOverEmpty(keys: seq<string>)
    ensures SumOver(map[], keys) == 0
  {
    if keys != [] {
      SumOverEmpty(keys[1..]);
    }
  }

  lemma {:induction false} CountInCovering(xs: seq<string>, s: set<string>)
    requires forall x :: x in xs ==> x in s
    ensures CountIn(xs, s) == |xs|
  {
    if xs != [] {
      var init := xs[..|xs| - 1];
      assert forall x :: x in init ==> x in xs;
      CountInCovering(init, s);
    }
  }

  /** Summed over an iteration order of its keys, a tally gives back the number of keys tallied. */
  lemma TallySum(xs: seq<string>, keys: seq<string>)
    requires IsEnumeration(keys, Tally(xs).Keys)
    ensures SumOver(Tally(xs), keys) == |xs|
  {
    TallyCounts(xs);
    SumOverTally(xs, keys);
    CountInCovering(xs, set k | k in keys);
  }

  datatype Level = Warning | Info

  /** One message handed to the logger. */
  datatype LogEntry = LogEntry(level: Level, message: string)

  function InvalidLineWarning(line: string): LogEntry {
    LogEntry(Warning, "Invalid email format found: " + line)
  }

  function Warnings(rejected: seq<string>): seq<LogEntry> {
    seq(|rejected|, i requires 0 <= i < |rejected| => InvalidLineWarning(rejected[i]))
  }

  /** The warnings the loop logs: one per rejected line, in input order. */
  function Diagnostics(lines: seq<string>): seq<LogEntry> {
    Warnings(Rejected(lines))
  }

  function DomainCounts(lines: seq<string>): map<string, nat> {
    Tally(Domains(Accepted(lines)))
  }

  function KeywordCounts(lines: seq<string>): map<string, nat> {
    Tally(Keywords(Accepted(lines)))
  }

  /** The i-th verdict is the parser's verdict on the i-th line. */
  lemma {:induction false} ParseAllPointwise(lines: seq<string>, i: nat)
    requires i < |lines|
    ensures ParseAll(lines)[i] == ParseLine(lines[i])
    decreases |lines|
  {
    if i < |lines| - 1 {
      ParseAllPointwise(lines[..|lines| - 1], i);
    }
  }

  /** The accepted records are exactly the values of the Some verdicts. */
  lemma {:induction false} AcceptedInMembers(verdicts: seq<Option<Record>>)
    ensures forall rec :: rec in AcceptedIn(verdicts) <==> Some(rec) in verdicts
    decreases |verdicts|
  {
    if verdicts != [] {
      var init := verdicts[..|verdicts| - 1];
      AcceptedInMembers(init);
      assert verdicts == init + [verdicts[|verdicts| - 1]];
    }
  }

  /** A record is accepted exactly when some line parses to it. */
  lemma AcceptedMembers(lines: seq<string>, rec: Record)
    ensures rec in Accepted(lines) <==> exists i :: 0 <= i < |lines| && ParseLine(lines[i]) == Some(rec)
  {
    var verdicts := ParseAll(lines);
    AcceptedInMembers(verdicts);
    if rec in Accepted(lines) {
      var i :| 0 <= i < |verdicts| && verdicts[i] == Some(rec);
      ParseAllPointwise(lines, i);
    } else {
      forall i | 0 <= i < |lines| ensures ParseLine(lines[i]) != Some(rec) {
        ParseAllPointwise(lines, i);
      }
    }
  }

  /** Every verdict of Some holds a record of the parser's shape. */
  lemma {:induction false} ParseAllValid(lines: seq<string>)
    ensures forall v :: v in ParseAll(lines) && v.Some? ==> ValidRecord(v.value)
    decreases |lines|
  {
    if lines != [] {
      var last := lines[|lines| - 1];
      ParseAllValid(lines[..|lines| - 1]);
      if ParseLine(last).Some? {
        ParsedRecordValid(last);
      }
    }
  }

  /** Every accepted record has the parser's shape. */
  lemma AcceptedValid(lines: seq<string>)
    ensures forall rec :: rec in Accepted(lines) ==> ValidRecord(rec)
  {
    ParseAllValid(lines);
    AcceptedInMembers(ParseAll(lines));
  }

  /** Every line is either accepted or rejected. */
  lemma {:induction false} AcceptedOrRejectedIn(lines: seq<string>, verdicts: seq<Option<Record>>)
    requires |verdicts| == |lines|
    ensures |AcceptedIn(verdicts)| + |RejectedIn(lines, verdicts)| == |lines|
  {
    if lines != [] {
      AcceptedOrRejectedIn(lines[..|lines| - 1], verdicts[..|lines| - 1]);
    }
  }

  lemma AcceptedOrRejected(lines: seq<string>)
    ensures |Accepted(lines)| + |Rejected(lines)| == |lines|
  {
    AcceptedOrRejectedIn(lines, ParseAll(lines));
  }

  lemma VerdictsSnoc(lines: seq<string>, verdicts: seq<Option<Record>>, line: string, v: Option<Record>)
    requires |verdicts| == |lines|
    ensures AcceptedIn(verdicts + [v]) == match v case Some(rec) => AcceptedIn(verdicts) + [rec] case None => AcceptedIn(verdicts)
    ensures RejectedIn(lines + [line], verdicts + [v])
            == if v.None? then RejectedIn(lines, verdicts) + [line] else RejectedIn(lines, verdicts)
  {
    assert (verdicts + [v])[..|verdicts|] == verdicts;
    assert (lines + [line])[..|lines|] == lines;
  }

  lemma FieldsSnoc(recs: seq<Record>, rec: Record)
    ensures Domains(recs + [rec]) == Domains(recs) + [rec.domain]
    ensures Keywords(recs + [rec]) == Keywords(recs) + [rec.subjectKeyword]
  {
  }

  lemma TallySnoc(keys: seq<string>, k: string)
    ensures Tally(keys + [k]) == Bump(Tally(keys), k)
  {
    assert (keys + [k])[..|keys|] == keys;
  }

  /** Processing one more line appends that line's verdict. */
  lemma ParseAllSnoc(lines: seq<string>, n: nat)
    requires n < |lines|
    ensures lines[..n + 1] == lines[..n] + [lines[n]]
    ensures ParseAll(lines[..n + 1]) == ParseAll(lines[..n]) + [ParseLine(lines[n])]
  {
    assert lines[..n + 1][..n] == lines[..n];
  }

  /** An accepted line adds one to the total and bumps its domain and its keyword, and logs nothing. */
  lemma AcceptedLineEffect(lines: seq<string>, verdicts: seq<Option<Record>>, line: string, rec: Record)
    requires |verdicts| == |lines|
    ensures |AcceptedIn(verdicts + [Some(rec)])| == |AcceptedIn(verdicts)| + 1
    ensures Tally(Domains(AcceptedIn(verdicts + [Some(rec)])))
            == Bump(Tally(Domains(AcceptedIn(verdicts))), rec.domain)
    ensures Tally(Keywords(AcceptedIn(verdicts + [Some(rec)])))
            == Bump(Tally(Keywords(AcceptedIn(verdicts))), rec.subjectKeyword)
    ensures RejectedIn(lines + [line], verdicts + [Some(rec)]) == RejectedIn(lines, verdicts)
  {
    VerdictsSnoc(lines, verdicts, line, Some(rec));
    var recs := AcceptedIn(verdicts);
    FieldsSnoc(recs, rec);
    TallySnoc(Domains(recs), rec.domain);
    TallySnoc(Keywords(recs), rec.subjectKeyword);
  }

  /** A rejected line leaves the total and both maps alone and logs one warning quoting it. */
  lemma RejectedLineEffect(lines: seq<string>, verdicts: seq<Option<Record>>, line: string)
    requires |verdicts| == |lines|
    ensures AcceptedIn(verdicts + [None]) == AcceptedIn(verdicts)
    ensures Warnings(RejectedIn(lines + [line], verdicts + [None]))
            == Warnings(RejectedIn(lines, verdicts)) + [InvalidLineWarning(line)]
  {
    VerdictsSnoc(lines, verdicts, line, None);
    var rejected := RejectedIn(lines, verdicts);
    assert Warnings(rejected + [line]) == Warnings(rejected) + [InvalidLineWarning(line)];
  }

  /**
    `main`'s loop: the three searches on each line, then either the three counter updates or a
    warning. It computes what the functions above define.
  */
  method Analyze(lines: seq<string>)
    returns (totalEmails: nat, domainCounts: map<string, nat>,
             subjectKeywordCounts: map<string, nat>, log: seq<LogEntry>)
    ensures totalEmails == |Accepted(lines)|
    ensures domainCounts == DomainCounts(lines)
    ensures subjectKeywordCounts == KeywordCounts(lines)
    ensures log == Diagnostics(lines)
  {
    totalEmails, domainCounts, subjectKeywordCounts, log := 0, map[], map[], [];
    ghost var verdicts: seq<Option<Record>> := [];
    var n := 0;
    while n < |lines|
      invariant 0 <= n <= |lines|
      invariant verdicts == ParseAll(lines[..n])
      invariant totalEmails == |AcceptedIn(verdicts)|
      invariant domainCounts == Tally(Domains(AcceptedIn(verdicts)))
      invariant subjectKeywordCounts == Tally(Keywords(AcceptedIn(verdicts)))
      invariant log == Warnings(RejectedIn(lines[..n], verdicts))
    {
      var line := lines[n];
      ParseAllSnoc(lines, n);
      var recipient := FirstGroup(line);
      var sender := FirstEmail(line);
      var keyword := FirstKeyword(line);
      if recipient.Some? && sender.Some? && keyword.Some? {
        var domain := GetEmailDomain(recipient.value);
        AcceptedLineEffect(lines[..n], verdicts, line,
                           Record(recipient.value, sender.value, domain, keyword.value));
        totalEmails := totalEmails + 1;
        domainCounts := Bump(domainCounts, domain);
        subjectKeywordCounts := Bump(subjectKeywordCounts, keyword.value);
      } else {
        RejectedLineEffect(lines[..n], verdicts, line);
        log := log + [InvalidLineWarning(line)];
      }
      verdicts := verdicts + [ParseLine(line)];
      n := n + 1;
    }
    assert lines[..n] == lines;
  }

  /** `Map.getOrDefault` */
  function GetOrDefault(m: map<string, nat>, k: string, default: nat): (r: nat)
    ensures k in m ==> r == m[k]
    ensures k !in m ==> r == default
  {
    if k in m then m[k] else default
  }

  /**
    The counters after the loop: the total is the number of accepted lines, accepted and rejected
    lines add up to the input, both maps sum to the total over any iteration order, and every stored
    count is at least one.
  */
  lemma CountersAgree(lines: seq<string>, domainOrder: seq<string>, keywordOrder: seq<string>)
    requires IsEnumeration(domainOrder, DomainCounts(lines).Keys)
    requires IsEnumeration(keywordOrder, KeywordCounts(lines).Keys)
    ensures |Accepted(lines)| + |Diagnostics(lines)| == |lines|
    ensures SumOver(DomainCounts(lines), domainOrder) == |Accepted(lines)|
    ensures SumOver(KeywordCounts(lines), keywordOrder) == |Accepted(lines)|
    ensures forall d :: d in DomainCounts(lines) ==> DomainCounts(lines)[d] >= 1
    ensures forall k :: k in KeywordCounts(lines) ==> KeywordCounts(lines)[k] >= 1
  {
    AcceptedOrRejected(lines);
    var recs := Accepted(lines);
    TallySum(Domains(recs), domainOrder);
    TallySum(Keywords(recs), keywordOrder);
    TallyCounts(Domains(recs));
    TallyCounts(Keywords(recs));
  }

}
