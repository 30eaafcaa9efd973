/**
  `EmailAnalyzer.main` without its file handling: the lines `reader.readLine()` returns go through
  the counting loop, the report goes to a fresh report writer, and the log ends with the success
  message once the report is written.
*/
module EmailAnalyzer {
  import opened Options
  import opened LineParser
  import opened Aggregator
  import opened Report

  const ReportGenerated: LogEntry := LogEntry(Info, "Email analysis report generated successfully.")

  /** Lines 36-79 of `main`: count, write the report, then log the success message. */
  method AnalyzeEmails(lines: seq<string>, writer: ReportWriter)
    returns (log: seq<LogEntry>, ghost domainOrder: seq<string>, ghost keywordOrder: seq<string>)
    modifies writer
    ensures IsEnumeration(domainOrder, DomainCounts(lines).Keys)
    ensures IsEnumeration(keywordOrder, KeywordCounts(lines).Keys)
    ensures writer.written == old(writer.written)
              + JoinLines(ReportLines(|Accepted(lines)|, DomainCounts(lines), KeywordCounts(lines),
                                      domainOrder, keywordOrder))
    ensures log == Diagnostics(lines) + [ReportGenerated]
  {
    var totalEmails, domainCounts, subjectKeywordCounts, warnings := Analyze(lines);
    domainOrder, keywordOrder := WriteReport(writer, totalEmails, domainCounts, subjectKeywordCounts);
    log := warnings + [ReportGenerated];
  }

  /**
    No key of either map holds a '\n': a domain is a piece of the first bracketed text, which `.`
    keeps free of line terminators, and a keyword is made of letters.
  */
  lemma CountKeysHaveNoNewline(lines: seq<string>)
    ensures forall d :: d in DomainCounts(lines) ==> NoNewline(d)
    ensures forall k :: k in KeywordCounts(lines) ==> NoNewline(k)
  {
    var recs := Accepted(lines);
    AcceptedValid(lines);
    forall i | 0 <= i < |recs|
      ensures NoNewline(recs[i].domain) && NoNewline(recs[i].subjectKeyword)
    {
      ValidRecordDomain(recs[i]);
    }
    TallyCounts(Domains(recs));
    TallyCounts(Keywords(recs));
    forall d | d in DomainCounts(lines) ensures NoNewline(d) {
      var i :| 0 <= i < |recs| && Domains(recs)[i] == d;
    }
    forall k | k in KeywordCounts(lines) ensures NoNewline(k) {
      var i :| 0 <= i < |recs| && Keywords(recs)[i] == k;
    }
  }

  /**
    What a reader of the report file finds: the written text splits back into the report's lines,
    six fixed lines plus one per map entry; the second line reads back as the number of accepted
    lines; and over the order the entries were written in, the domain counts and the keyword counts
    each add up to that number.
  */
  lemma ReportReadsBack(lines: seq<string>, domainOrder: seq<string>, keywordOrder: seq<string>)
    requires IsEnumeration(domainOrder, DomainCounts(lines).Keys)
    requires IsEnumeration(keywordOrder, KeywordCounts(lines).Keys)
    ensures var report := ReportLines(|Accepted(lines)|, DomainCounts(lines), KeywordCounts(lines),
                                      domainOrder, keywordOrder);
            && SplitLines(JoinLines(report)) == report
            && |report| == 6 + |DomainCounts(lines)| + |KeywordCounts(lines)|
            && report[1][..14] == TotalLabel
            && AllDigits(report[1][14..]) && DigitsValue(report[1][14..]) == |Accepted(lines)|
    ensures SumOver(DomainCounts(lines), domainOrder) == |Accepted(lines)|
    ensures SumOver(KeywordCounts(lines), keywordOrder) == |Accepted(lines)|
  {
    CountKeysHaveNoNewline(lines);
    ReportRoundTrip(|Accepted(lines)|, DomainCounts(lines), KeywordCounts(lines), domainOrder, keywordOrder);
    ReportShape(|Accepted(lines)|, DomainCounts(lines), KeywordCounts(lines), domainOrder, keywordOrder);
    CountersAgree(lines, domainOrder, keywordOrder);
  }
}
