/**
  One concrete line run through the parser by hand: the line

    Subject [Hello] from [user@example.com]

  is accepted with recipient "Hello", sender "[user@example.com]" and keyword "Hello", and its
  domain is "Hello": `getEmailDomain` is applied to the recipient, which here is the subject
  bracket, not to the address.
*/
module ParserExamples {
  import opened Options
  import opened Strings
  import opened LineParser

  const SampleLine: string := "Subject [Hello] from [user@example.com]"

  lemma HelloIsNotAnAddress(w: string)
    requires w == "Hello"
    ensures !IsEmailAddress(w) && NoLineTerminator(w) && AllLetters(w)
  {
    assert IndexOf(w, '@', 0).None?;
  }

  lemma UserIsAnAddress(w: string)
    requires w == "user@example.com"
    ensures IsEmailAddress(w)
  {
    assert EmailSplit(w, 4, 12);
    GrammarImpliesScanner(w, 4, 12);
  }

  /** The leading `\b` lets a local part start with '_', a word character ... */
  lemma UnderscoreStartIsAnAddress(w: string)
    requires w == "_x@ab.io"
    ensures IsEmailAddress(w)
  {
    assert EmailSplit(w, 2, 5);
    GrammarImpliesScanner(w, 2, 5);
  }

  /** ... but not with '.', which the local part's class allows elsewhere. */
  lemma DotStartIsNotAnAddress(w: string)
    requires w == ".x@ab.io"
    ensures !IsEmailAddress(w) && !EmailGrammar(w)
  {
    EmailScannerMatchesGrammar(w);
    assert !IsWordChar(w[0]);
  }

  lemma SampleSlices(line: string)
    requires line == SampleLine
    ensures |line| == 39
    ensures line[8] == '[' && line[14] == ']' && line[21] == '[' && line[38] == ']'
    ensures forall k :: 0 <= k < 8 ==> line[k] != '['
    ensures forall k :: 8 < k < 21 ==> line[k] != '['
    ensures forall k :: 8 < k < 14 ==> line[k] != ']'
    ensures forall k :: 21 < k < 38 ==> line[k] != ']'
  {
  }

  lemma SampleWords(line: string)
    requires line == SampleLine
    ensures line[9..14] == "Hello" && line[22..38] == "user@example.com"
  {
    SampleHello(line);
    var user := line[22..38];
    forall k | 0 <= k < 16 ensures user[k] == "user@example.com"[k] {
    }
  }

  lemma SampleHello(line: string)
    requires line == SampleLine
    ensures line[9..14] == "Hello"
  {
    assert line[9] == 'H' && line[10] == 'e' && line[11] == 'l' && line[12] == 'l' && line[13] == 'o';
  }

  lemma SampleRecipientAndKeyword(line: string)
    requires line == SampleLine
    ensures Search(line, AnyText) == Some(Span(8, 14))
    ensures Search(line, Letters) == Some(Span(8, 14))
  {
    SampleSlices(line);
    SampleWords(line);
    HelloIsNotAnAddress(line[9..14]);
    SearchReturnsLeftmost(line, AnyText, 8, 14);
    SearchReturnsLeftmost(line, Letters, 8, 14);
  }

  lemma SampleSender(line: string)
    requires line == SampleLine
    ensures Search(line, EmailAddress) == Some(Span(21, 38))
  {
    SampleSlices(line);
    SampleWords(line);
    HelloIsNotAnAddress(line[9..14]);
    UserIsAnAddress(line[22..38]);
    forall i', j' | 0 <= i' < 21 ensures !MatchAt(line, EmailAddress, i', j') {
    }
    SearchReturnsLeftmost(line, EmailAddress, 21, 38);
  }

  lemma SampleSenderText(line: string)
    requires line == SampleLine
    ensures line[21..39] == "[user@example.com]"
  {
    var sender := line[21..39];
    forall k | 0 <= k < 18 ensures sender[k] == "[user@example.com]"[k] {
    }
  }

  lemma HelloDomain(w: string)
    requires w == "Hello"
    ensures GetEmailDomain(w) == w
  {
    assert '@' !in w;
  }

  /** The domain counted for the sample line is "Hello", not the address's "example.com". */
  lemma SampleLineDomainIsRecipient(line: string)
    requires line == SampleLine
    ensures ParseLine(line) == Some(Record("Hello", "[user@example.com]", "Hello", "Hello"))
    ensures ParseLine(line).value.domain != "example.com"
  {
    SampleSlices(line);
    SampleWords(line);
    SampleRecipientAndKeyword(line);
    SampleSender(line);
    SampleSenderText(line);
    assert FirstGroup(line) == Some("Hello");
    assert FirstKeyword(line) == Some("Hello");
    assert FirstEmail(line) == Some("[user@example.com]");
    HelloDomain("Hello");
  }
}
