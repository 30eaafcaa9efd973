/**
  The report `main` writes after the counting loop: a title, the total, then one `key: count`
  line per entry of each map, with every line ended by '\n'. A map's entries come out in the map's
  iteration order, which `HashMap` leaves unspecified; the writer therefore picks any key not yet
  written, and each writing method hands back the order it used as a ghost result.
*/
module Report {
  import opened Options
  import opened Strings
  import opened Aggregator

  function DigitChar(d: nat): (c: char)
    requires d < 10
    ensures '0' <= c <= '9'
  {
    ('0' as int + d) as char
  }

  /** Java's decimal rendering of a non-negative `int` (`"" + n`). */
  function NatToString(n: nat): (r: string)
    ensures 1 <= |r|
    ensures forall i :: 0 <= i < |r| ==> '0' <= r[i] <= '9'
    ensures |r| == 1 <==> n < 10
    decreases n
  {
    if n < 10 then [DigitChar(n)] else NatToString(n / 10) + [DigitChar(n % 10)]
  }

  predicate AllDigits(s: string) {
    forall i :: 0 <= i < |s| ==> '0' <= s[i] <= '9'
  }

  /** The number a string of decimal digits denotes. */
  function DigitsValue(s: string): nat
    requires AllDigits(s)
    decreases |s|
  {
    if s == [] then 0 else DigitsValue(s[..|s| - 1]) * 10 + (s[|s| - 1] as int - '0' as int)
  }

  /** Reading the rendered digits back gives the number, and only zero is rendered with a leading '0'. */
  lemma {:induction false} NatToStringRoundTrip(n: nat)
    ensures AllDigits(NatToString(n)) && DigitsValue(NatToString(n)) == n
    ensures NatToString(n)[0] == '0' <==> n == 0
    decreases n
  {
    if n >= 10 {
      var init := NatToString(n / 10);
      NatToStringRoundTrip(n / 10);
      assert NatToString(n)[..|NatToString(n)| - 1] == init;
      assert NatToString(n)[0] == init[0];
    }
  }

  /** Different counts are rendered differently. */
  lemma NatToStringInjective(a: nat, b: nat)
    ensures NatToString(a) == NatToString(b) ==> a == b
  {
    NatToStringRoundTrip(a);
    NatToStringRoundTrip(b);
  }

  /** `entry.getKey() + ": " + entry.getValue()` */
  function EntryLine(key: string, count: nat): string {
    key + ": " + NatToString(count)
  }

  /** Given the key's length, an entry line splits back into the key, the separator and the count. */
  lemma EntryLineParts(key: string, count: nat)
    ensures EntryLine(key, count)[..|key|] == key
    ensures EntryLine(key, count)[|key|..|key| + 2] == ": "
    ensures AllDigits(EntryLine(key, count)[|key| + 2..])
    ensures DigitsValue(EntryLine(key, count)[|key| + 2..]) == count
  {
    var line := EntryLine(key, count);
    assert line[|key| + 2..] == NatToString(count);
    NatToStringRoundTrip(count);
  }

  /** One entry line per listed key, in the listed order. */
  function EntryLines(counts: map<string, nat>, order: seq<string>): (r: seq<string>)
    requires forall k :: k in order ==> k in counts
    ensures |r| == |order|
  {
    seq(|order|, i requires 0 <= i < |order| => EntryLine(order[i], counts[order[i]]))
  }

  const Title: string := "Email Analysis Report"
  const TotalLabel: string := "Total Emails: "
  const DomainHeading: string := "Domain Counts:"
  const KeywordHeading: string := "Subject Keyword Counts:"

  /** The report, line by line, for the given iteration orders of the two maps. */
  function ReportLines(totalEmails: nat, domainCounts: map<string, nat>, keywordCounts: map<string, nat>,
                       domainOrder: seq<string>, keywordOrder: seq<string>): seq<string>
    requires forall k :: k in domainOrder ==> k in domainCounts
    requires forall k :: k in keywordOrder ==> k in keywordCounts
  {
    [Title, TotalLabel + NatToString(totalEmails), "", DomainHeading]
    + EntryLines(domainCounts, domainOrder)
    + ["", KeywordHeading]
    + EntryLines(keywordCounts, keywordOrder)
  }

  /** Every line followed by '\n'. */
  function JoinLines(lines: seq<string>): string
    decreases |lines|
  {
    if lines == [] then "" else lines[0] + "\n" + JoinLines(lines[1..])
  }

  /** The lines of a text, each ended by '\n' (an unterminated tail counts as a last line). */
  function SplitLines(text: string): seq<string>
    decreases |text|
  {
    if text == [] then []
    else
      match IndexOf(text, '\n', 0)
      case None => [text]
      case Some(i) => [text[..i]] + SplitLines(text[i + 1..])
  }

  /** Joining distributes over concatenation of line lists. */
  lemma {:induction false} JoinLinesAppend(a: seq<string>, b: seq<string>)
    ensures JoinLines(a + b) == JoinLines(a) + JoinLines(b)
    decreases |a|
  {
    if a != [] {
      assert (a + b)[0] == a[0];
      assert (a + b)[1..] == a[1..] + b;
      JoinLinesAppend(a[1..], b);
      calc {
        JoinLines(a + b);
        a[0] + "\n" + JoinLines(a[1..] + b);
        a[0] + "\n" + (JoinLines(a[1..]) + JoinLines(b));
        (a[0] + "\n" + JoinLines(a[1..])) + JoinLines(b);
      }
    } else {
      assert a + b == b;
    }
  }

  predicate NoNewline(s: string) {
    forall i :: 0 <= i < |s| ==> s[i] != '\n'
  }

  /** Splitting joined lines gives them back, provided no line holds a '\n' of its own. */
  lemma {:induction false} SplitJoinRoundTrip(lines: seq<string>)
    requires forall i :: 0 <= i < |lines| ==> NoNewline(lines[i])
    ensures SplitLines(JoinLines(lines)) == lines
    decreases |lines|
  {
    if lines != [] {
      var head, tail := lines[0], JoinLines(lines[1..]);
      var text := JoinLines(lines);
      assert text == head + "\n" + tail;
      assert text[|head|] == '\n';
      assert forall k :: 0 <= k < |head| ==> text[k] == head[k];
      assert IndexOf(text, '\n', 0) == Some(|head|);
      assert text[..|head|] == head;
      assert text[|head| + 1..] == tail;
      SplitJoinRoundTrip(lines[1..]);
    }
  }

  /** A duplicate-free list of the elements of a set is as long as the set is large. */
  lemma {:induction false} EnumerationLength(keys: seq<string>, s: set<string>)
    requires IsEnumeration(keys, s)
    ensures |keys| == |s|
    decreases |keys|
  {
    if keys != [] {
      var last := keys[|keys| - 1];
      var init := keys[..|keys| - 1];
      assert last !in init by {
        forall i | 0 <= i < |init| ensures init[i] != last {
          assert init[i] == keys[i];
        }
      }
      forall k ensures k in init <==> k in s - {last} {
        assert keys == init + [last];
      }
      assert NoDuplicates(init) by {
        forall i, j | 0 <= i < j < |init| ensures init[i] != init[j] {
          assert init[i] == keys[i] && init[j] == keys[j];
        }
      }
      EnumerationLength(init, s - {last});
    }
  }

  /**
    The report holds six fixed lines plus one line per entry of each map, and the number on the
    second line reads back as the total.
  */
  lemma ReportShape(totalEmails: nat, domainCounts: map<string, nat>, keywordCounts: map<string, nat>,
                    domainOrder: seq<string>, keywordOrder: seq<string>)
    requires IsEnumeration(domainOrder, domainCounts.Keys)
    requires IsEnumeration(keywordOrder, keywordCounts.Keys)
    ensures |ReportLines(totalEmails, domainCounts, keywordCounts, domainOrder, keywordOrder)|
            == 6 + |domainCounts| + |keywordCounts|
    ensures ReportLines(totalEmails, domainCounts, keywordCounts, domainOrder, keywordOrder)[1][..14] == TotalLabel
    ensures AllDigits(ReportLines(totalEmails, domainCounts, keywordCounts, domainOrder, keywordOrder)[1][14..])
    ensures DigitsValue(ReportLines(totalEmails, domainCounts, keywordCounts, domainOrder, keywordOrder)[1][14..])
            == totalEmails
  {
    EnumerationLength(domainOrder, domainCounts.Keys);
    EnumerationLength(keywordOrder, keywordCounts.Keys);
    var second := TotalLabel + NatToString(totalEmails);
    assert ReportLines(totalEmails, domainCounts, keywordCounts, domainOrder, keywordOrder)[1] == second;
    assert second[14..] == NatToString(totalEmails);
    NatToStringRoundTrip(totalEmails);
  }

  /** The entry lines of a map, read back, give each listed key's count. */
  lemma EntryLinesReadBack(counts: map<string, nat>, order: seq<string>, i: nat)
    requires forall k :: k in order ==> k in counts
    requires i < |order|
    ensures EntryLines(counts, order)[i][..|order[i]|] == order[i]
    ensures AllDigits(EntryLines(counts, order)[i][|order[i]| + 2..])
    ensures DigitsValue(EntryLines(counts, order)[i][|order[i]| + 2..]) == counts[order[i]]
  {
    EntryLineParts(order[i], counts[order[i]]);
  }

  lemma EntryLineNoNewline(key: string, count: nat)
    requires NoNewline(key)
    ensures NoNewline(EntryLine(key, count))
  {
    var line := EntryLine(key, count);
    forall i | 0 <= i < |line| ensures line[i] != '\n' {
      if i >= |key| + 2 {
        assert line[i] == NatToString(count)[i - |key| - 2];
      }
    }
  }

  /** When no key holds a '\n', splitting the written report gives back exactly its lines. */
  lemma ReportRoundTrip(totalEmails: nat, domainCounts: map<string, nat>, keywordCounts: map<string, nat>,
                        domainOrder: seq<string>, keywordOrder: seq<string>)
    requires forall k :: k in domainOrder ==> k in domainCounts && NoNewline(k)
    requires forall k :: k in keywordOrder ==> k in keywordCounts && NoNewline(k)
    ensures SplitLines(JoinLines(ReportLines(totalEmails, domainCounts, keywordCounts, domainOrder, keywordOrder)))
            == ReportLines(totalEmails, domainCounts, keywordCounts, domainOrder, keywordOrder)
  {
    var domainLines := EntryLines(domainCounts, domainOrder);
    var keywordLines := EntryLines(keywordCounts, keywordOrder);
    var header := [Title, TotalLabel + NatToString(totalEmails), "", DomainHeading];
    var middle := ["", KeywordHeading];
    var report := ReportLines(totalEmails, domainCounts, keywordCounts, domainOrder, keywordOrder);
    assert report == header + domainLines + middle + keywordLines;
    forall i | 0 <= i < |domainLines| ensures NoNewline(domainLines[i]) {
      EntryLineNoNewline(domainOrder[i], domainCounts[domainOrder[i]]);
    }
    forall i | 0 <= i < |keywordLines| ensures NoNewline(keywordLines[i]) {
      EntryLineNoNewline(keywordOrder[i], keywordCounts[keywordOrder[i]]);
    }
    FixedLinesNoNewline(NatToString(totalEmails));
    forall i | 0 <= i < |report| ensures NoNewline(report[i]) {
      if i < 4 {
        assert report[i] == header[i];
      } else if i < 4 + |domainLines| {
        assert report[i] == domainLines[i - 4];
      } else if i < 6 + |domainLines| {
        assert report[i] == middle[i - 4 - |domainLines|];
      } else {
        assert report[i] == keywordLines[i - 6 - |domainLines|];
      }
    }
    SplitJoinRoundTrip(report);
  }

  lemma FixedLinesNoNewline(digits: string)
    requires AllDigits(digits)
    ensures NoNewline(Title) && NoNewline(TotalLabel + digits) && NoNewline(DomainHeading)
    ensures NoNewline("") && NoNewline(KeywordHeading)
  {
    var total := TotalLabel + digits;
    forall i | 0 <= i < |total| ensures total[i] != '\n' {
      if i >= |TotalLabel| {
        assert total[i] == digits[i - |TotalLabel|];
      }
    }
  }

  /** The report file (`BufferedWriter` over a fresh `FileWriter`), reduced to the text written so far. */
  class ReportWriter {
    var written: string

    constructor ()
      ensures written == ""
    {
      written := "";
    }

    method Write(s: string)
      modifies this
      ensures written == old(written) + s
    {
      written := written + s;
    }
  }

  /** `for (entry : counts.entrySet()) writer.write(entry.getKey() + ": " + entry.getValue() + "\n")` */
  method WriteEntries(writer: ReportWriter, counts: map<string, nat>) returns (ghost order: seq<string>)
    modifies writer
    ensures IsEnumeration(order, counts.Keys)
    ensures writer.written == old(writer.written) + JoinLines(EntryLines(counts, order))
  {
    ghost var start := writer.written;
    var rest := counts.Keys;
    order := [];
    while rest != {}
      invariant rest <= counts.Keys
      invariant NoDuplicates(order)
      invariant forall k :: k in order <==> k in counts && k !in rest
      invariant writer.written == start + JoinLines(EntryLines(counts, order))
      decreases rest
    {
      var key :| key in rest;
      writer.Write(EntryLine(key, counts[key]) + "\n");
      EntryLinesSnoc(counts, order, key);
      JoinLinesAppend(EntryLines(counts, order), [EntryLine(key, counts[key])]);
      order := order + [key];
      rest := rest - {key};
    }
  }

  lemma EntryLinesSnoc(counts: map<string, nat>, order: seq<string>, key: string)
    requires forall k :: k in order ==> k in counts
    requires key in counts
    ensures EntryLines(counts, order + [key]) == EntryLines(counts, order) + [EntryLine(key, counts[key])]
  {
  }

  /** Lines 65-77 of `main`: the report, written chunk by chunk as the source writes it. */
  method WriteReport(writer: ReportWriter, totalEmails: nat,
                     domainCounts: map<string, nat>, subjectKeywordCounts: map<string, nat>)
    returns (ghost domainOrder: seq<string>, ghost keywordOrder: seq<string>)
    modifies writer
    ensures IsEnumeration(domainOrder, domainCounts.Keys)
    ensures IsEnumeration(keywordOrder, subjectKeywordCounts.Keys)
    ensures writer.written == old(writer.written)
              + JoinLines(ReportLines(totalEmails, domainCounts, subjectKeywordCounts, domainOrder, keywordOrder))
  {
    ghost var start := writer.written;
    writer.Write(Title + "\n");
    writer.Write(TotalLabel + NatToString(totalEmails) + "\n\n");
    writer.Write(DomainHeading + "\n");
    domainOrder := WriteEntries(writer, domainCounts);
    writer.Write("\n");
    writer.Write(KeywordHeading + "\n");
    keywordOrder := WriteEntries(writer, subjectKeywordCounts);
    ReportText(start, totalEmails, domainCounts, subjectKeywordCounts, domainOrder, keywordOrder);
  }

  lemma HeaderText(total: string)
    ensures JoinLines([Title, TotalLabel + total, "", DomainHeading])
            == (Title + "\n") + (TotalLabel + total + "\n\n") + (DomainHeading + "\n")
  {
    var header := [Title, TotalLabel + total, "", DomainHeading];
    assert header[1..][1..][1..] == [DomainHeading];
    assert JoinLines(header[1..][1..][1..]) == DomainHeading + "\n" + "";
    assert JoinLines(header[1..][1..]) == "" + "\n" + (DomainHeading + "\n" + "");
    assert JoinLines(header[1..]) == TotalLabel + total + "\n" + ("" + "\n" + (DomainHeading + "\n" + ""));
  }

  lemma MiddleText(keywordLines: seq<string>)
    ensures JoinLines(["", KeywordHeading] + keywordLines)
            == "\n" + (KeywordHeading + "\n") + JoinLines(keywordLines)
  {
    var middle := ["", KeywordHeading];
    JoinLinesAppend(middle, keywordLines);
    assert middle[1..][1..] == [];
    assert JoinLines(middle[1..]) == KeywordHeading + "\n" + "";
  }

  /** The chunks `main` writes, appended to what the file already holds, spell out the report's lines. */
  lemma ReportText(start: string, totalEmails: nat, domainCounts: map<string, nat>,
                   keywordCounts: map<string, nat>, domainOrder: seq<string>, keywordOrder: seq<string>)
    requires forall k :: k in domainOrder ==> k in domainCounts
    requires forall k :: k in keywordOrder ==> k in keywordCounts
    ensures start + (Title + "\n") + (TotalLabel + NatToString(totalEmails) + "\n\n")
            + (DomainHeading + "\n") + JoinLines(EntryLines(domainCounts, domainOrder))
            + "\n" + (KeywordHeading + "\n") + JoinLines(EntryLines(keywordCounts, keywordOrder))
            == start + JoinLines(ReportLines(totalEmails, domainCounts, keywordCounts, domainOrder, keywordOrder))
  {
    var domainLines := EntryLines(domainCounts, domainOrder);
    var keywordLines := EntryLines(keywordCounts, keywordOrder);
    var header := [Title, TotalLabel + NatToString(totalEmails), "", DomainHeading];
    var tail := ["", KeywordHeading] + keywordLines;
    assert ReportLines(totalEmails, domainCounts, keywordCounts, domainOrder, keywordOrder)
           == header + (domainLines + tail);
    JoinLinesAppend(header, domainLines + tail);
    JoinLinesAppend(domainLines, tail);
    HeaderText(NatToString(totalEmails));
    MiddleText(keywordLines);
    Regroup(start, Title + "\n", TotalLabel + NatToString(totalEmails) + "\n\n", DomainHeading + "\n",
            JoinLines(domainLines), "\n", KeywordHeading + "\n", JoinLines(keywordLines));
  }

  lemma Regroup(s: string, a: string, b: string, c: string, d: string, e: string, f: string, g: string)
    ensures s + a + b + c + d + e + f + g == s + ((a + b + c) + (d + (e + f + g)))
  {
  }
}
