/**
  The per-line classifier of `EmailAnalyzer.main`. Each of the three patterns

    linePattern     \[(.*?)\]
    emailPattern    \[\b[A-Za-z0-9._%+-]+@[A-Za-z0-9.-]+\.[A-Za-z]{2,}\b\]
    subjectPattern  \[\b([A-Za-z]+)\b\]

  is searched for on its own, leftmost match first, as `Matcher.find` does. A match of any of them
  starts at a '[' and ends at the first ']' after it: the lazy `.*?` stops there, and the character
  classes of the other two do not contain ']'. So all three are one scanner, `Search`, told by a
  `Shape` what the text between the brackets must look like.
*/
module LineParser {
  import opened Options
  import opened Strings

  predicate IsAsciiLetter(c: char) { 'A' <= c <= 'Z' || 'a' <= c <= 'z' }

  predicate IsAsciiDigit(c: char) { '0' <= c <= '9' }

  predicate IsAsciiAlnum(c: char) { IsAsciiLetter(c) || IsAsciiDigit(c) }

  /**
    A word character of `\b` (`Character.isLetterOrDigit` or '_') among the local part's
    characters: the leading `\b` after '[' needs one.
  */
  predicate IsWordChar(c: char) { IsAsciiAlnum(c) || c == '_' }

  /** `[A-Za-z0-9._%+-]` */
  predicate IsLocalChar(c: char) {
    IsAsciiAlnum(c) || c == '.' || c == '_' || c == '%' || c == '+' || c == '-'
  }

  /** `[A-Za-z0-9.-]` */
  predicate IsDomainChar(c: char) { IsAsciiAlnum(c) || c == '.' || c == '-' }

  /** The characters Java's `.` refuses to match when DOTALL is off. */
  predicate IsLineTerminator(c: char) {
    c == '\n' || c == '\r' || c == '\U{85}' || c == '\U{2028}' || c == '\U{2029}'
  }

  predicate NoLineTerminator(s: string) {
    forall k :: 0 <= k < |s| ==> !IsLineTerminator(s[k])
  }

  predicate AllLetters(s: string) {
    forall k :: 0 <= k < |s| ==> IsAsciiLetter(s[k])
  }

  /**
    Scanner for the inside of an email match: exactly one '@', before it a non-empty local part
    starting with a word character (the leading `\b`), after it domain characters whose last '.'
    has at least one character before it and two or more letters after it.
  */
  predicate IsEmailAddress(w: string) {
    match IndexOf(w, '@', 0)
    case None => false
    case Some(at) =>
      var rest := w[at + 1..];
      var dot := LastIndexOf(rest, '.');
      && 0 < at && IsWordChar(w[0])
      && (forall k :: 0 <= k < at ==> IsLocalChar(w[k]))
      && (forall k :: 0 <= k < |rest| ==> IsDomainChar(rest[k]))
      && 1 <= dot && dot + 2 < |rest|
      && AllLetters(rest[dot + 1..])
  }

  /**
    The regular expression's own reading of an email: `w` is `local@dom.tld` with the '@' at `at`
    and the '.' before the top-level label at `dot`.
  */
  ghost predicate EmailSplit(w: string, at: int, dot: int) {
    && 0 < at && at + 1 < dot && dot + 2 < |w|
    && w[at] == '@' && w[dot] == '.'
    && IsWordChar(w[0])
    && (forall k :: 0 <= k < at ==> IsLocalChar(w[k]))
    && (forall k :: at < k < dot ==> IsDomainChar(w[k]))
    && (forall k :: dot < k < |w| ==> IsAsciiLetter(w[k]))
  }

  ghost predicate EmailGrammar(w: string) {
    exists at, dot :: EmailSplit(w, at, dot)
  }

  lemma ScannerImpliesGrammar(w: string)
    requires IsEmailAddress(w)
    ensures EmailGrammar(w)
  {
    var at := IndexOf(w, '@', 0).value;
    var rest := w[at + 1..];
    var dot := LastIndexOf(rest, '.');
    forall k | at < k < at + 1 + dot ensures IsDomainChar(w[k]) {
      assert w[k] == rest[k - at - 1];
    }
    var tld := rest[dot + 1..];
    forall k | at + 1 + dot < k < |w| ensures IsAsciiLetter(w[k]) {
      assert w[k] == tld[k - at - 2 - dot];
    }
    assert EmailSplit(w, at, at + 1 + dot);
  }

  lemma GrammarImpliesScanner(w: string, at: int, dot: int)
    requires EmailSplit(w, at, dot)
    ensures IsEmailAddress(w)
  {
    assert IndexOf(w, '@', 0) == Some(at);
    var rest := w[at + 1..];
    assert rest[dot - at - 1] == '.';
    assert LastIndexOf(rest, '.') == dot - at - 1;
    forall k | 0 <= k < |rest| ensures IsDomainChar(rest[k]) {
      assert rest[k] == w[at + 1 + k];
    }
    var tld := rest[dot - at..];
    forall k | 0 <= k < |tld| ensures IsAsciiLetter(tld[k]) {
      assert tld[k] == w[dot + 1 + k];
    }
  }

  /** The scanner accepts exactly what the email pattern's grammar describes. */
  lemma EmailScannerMatchesGrammar(w: string)
    ensures IsEmailAddress(w) <==> EmailGrammar(w)
  {
    if IsEmailAddress(w) {
      ScannerImpliesGrammar(w);
    }
    if EmailGrammar(w) {
      var at, dot :| EmailSplit(w, at, dot);
      GrammarImpliesScanner(w, at, dot);
    }
  }

  /** What a pattern demands of the text between its brackets. */
  datatype Shape =
    | AnyText       // `(.*?)`: anything but a line terminator, possibly nothing
    | EmailAddress  // `\b[A-Za-z0-9._%+-]+@[A-Za-z0-9.-]+\.[A-Za-z]{2,}\b`
    | Letters       // `\b([A-Za-z]+)\b`

  predicate Admits(shape: Shape, w: string) {
    match shape
    case AnyText => NoLineTerminator(w)
    case EmailAddress => IsEmailAddress(w)
    case Letters => |w| > 0 && AllLetters(w)
  }

  /** The positions of the '[' and the ']' of a match. */
  datatype Span = Span(open: nat, close: nat)

  /** The pattern of `shape` matches `s` from the '[' at `i` to the ']' at `j`. */
  ghost predicate MatchAt(s: string, shape: Shape, i: int, j: int) {
    && 0 <= i < j < |s|
    && s[i] == '[' && s[j] == ']'
    && (forall k :: i < k < j ==> s[k] != ']')
    && Admits(shape, s[i + 1..j])
  }

  /** A match at `i`, `j`, and no match starts further left. */
  ghost predicate LeftmostMatch(s: string, shape: Shape, i: int, j: int) {
    MatchAt(s, shape, i, j) && forall i', j' :: 0 <= i' < i ==> !MatchAt(s, shape, i', j')
  }

  /** Leftmost match of `shape` starting at or after `from`: the engine tries each start in turn. */
  function SearchFrom(s: string, shape: Shape, from: nat): (r: Option<Span>)
    requires from <= |s|
    ensures r.Some? ==> from <= r.value.open < r.value.close < |s|
    decreases |s| - from
  {
    if from == |s| then None
    else if s[from] == '[' then
      match IndexOf(s, ']', from + 1)
      case Some(j) =>
        if Admits(shape, s[from + 1..j]) then Some(Span(from, j)) else SearchFrom(s, shape, from + 1)
      case None => SearchFrom(s, shape, from + 1)
    else SearchFrom(s, shape, from + 1)
  }

  /** `Matcher.find()` on the whole line. */
  function Search(s: string, shape: Shape): (r: Option<Span>)
    ensures r.Some? ==> r.value.open < r.value.close < |s|
  {
    SearchFrom(s, shape, 0)
  }

  /** A match that starts at `i` ends at the first ']' after `i`. */
  lemma MatchEndsAtFirstClose(s: string, shape: Shape, i: int, j: int)
    requires MatchAt(s, shape, i, j)
    ensures IndexOf(s, ']', i + 1) == Some(j)
  {
  }

  /** `SearchFrom` returns the leftmost match from `from` on, and None only when there is none. */
  lemma {:induction false} SearchFromFindsLeftmost(s: string, shape: Shape, from: nat)
    requires from <= |s|
    ensures var r := SearchFrom(s, shape, from);
            && (r.Some? ==> from <= r.value.open && MatchAt(s, shape, r.value.open, r.value.close))
            && (r.Some? ==> forall i, j :: from <= i < r.value.open ==> !MatchAt(s, shape, i, j))
            && (r.None? ==> forall i, j :: from <= i ==> !MatchAt(s, shape, i, j))
    decreases |s| - from
  {
    if from < |s| {
      SearchFromFindsLeftmost(s, shape, from + 1);
      if j :| MatchAt(s, shape, from, j) {
        SearchFromHit(s, shape, from, j);
      } else {
        SearchFromMiss(s, shape, from);
      }
    }
  }

  /** A match starting at `from` is the one `SearchFrom` returns. */
  lemma SearchFromHit(s: string, shape: Shape, from: nat, j: int)
    requires MatchAt(s, shape, from, j)
    ensures SearchFrom(s, shape, from) == Some(Span(from, j))
  {
    MatchEndsAtFirstClose(s, shape, from, j);
  }

  /** With no match starting at `from`, `SearchFrom` moves on to `from + 1`. */
  lemma SearchFromMiss(s: string, shape: Shape, from: nat)
    requires from < |s|
    requires forall j :: !MatchAt(s, shape, from, j)
    ensures SearchFrom(s, shape, from) == SearchFrom(s, shape, from + 1)
  {
    if s[from] == '[' {
      match IndexOf(s, ']', from + 1) {
        case None =>
        case Some(close) =>
          assert !MatchAt(s, shape, from, close);
      }
    }
  }

  /** `find()` succeeds exactly when the pattern matches somewhere, and then at its leftmost match. */
  lemma SearchFindsLeftmost(s: string, shape: Shape)
    ensures var r := Search(s, shape);
            && (r.Some? ==> LeftmostMatch(s, shape, r.value.open, r.value.close))
            && (r.None? <==> forall i, j :: !MatchAt(s, shape, i, j))
  {
    SearchFromFindsLeftmost(s, shape, 0);
  }

  /** Conversely, a match with no match starting further left is the one `Search` returns. */
  lemma SearchReturnsLeftmost(s: string, shape: Shape, i: int, j: int)
    requires LeftmostMatch(s, shape, i, j)
    ensures Search(s, shape) == Some(Span(i, j))
  {
    SearchFindsLeftmost(s, shape);
    var sp := Search(s, shape).value;
    assert sp.open == i;
    MatchEndsAtFirstClose(s, shape, i, j);
    MatchEndsAtFirstClose(s, shape, i, sp.close);
  }

  /** `linePattern` and `group(1)`: the text of the first bracketed group. */
  function FirstGroup(line: string): Option<string> {
    match Search(line, AnyText)
    case Some(sp) => Some(line[sp.open + 1..sp.close])
    case None => None
  }

  /** `emailPattern` and `group()`: the whole first email match, brackets included. */
  function FirstEmail(line: string): Option<string> {
    match Search(line, EmailAddress)
    case Some(sp) => Some(line[sp.open..sp.close + 1])
    case None => None
  }

  /** `subjectPattern` and `group(1)`: the letters of the first all-letters bracketed token. */
  function FirstKeyword(line: string): Option<string> {
    match Search(line, Letters)
    case Some(sp) => Some(line[sp.open + 1..sp.close])
    case None => None
  }

  lemma InnerOfBracketed(s: string, i: nat, j: nat)
    requires i < j < |s|
    ensures var m := s[i..j + 1]; |m| == j - i + 1 && m[1..|m| - 1] == s[i + 1..j]
  {
    var m := s[i..j + 1];
    var inner, direct := m[1..|m| - 1], s[i + 1..j];
    forall k | 0 <= k < j - i - 1 ensures inner[k] == direct[k] {
      assert inner[k] == m[k + 1] == s[i + 1 + k];
    }
    assert inner == direct;
  }

  /**
    The reading of the first pattern for a line without line terminators: the text between the
    first '[' of the line and the first ']' after it.
  */
  ghost predicate FirstBracketPair(line: string, i: int, j: int) {
    && 0 <= i < j < |line|
    && line[i] == '[' && line[j] == ']'
    && (forall k :: 0 <= k < i ==> line[k] != '[')
    && (forall k :: i < k < j ==> line[k] != ']')
  }

  /**
    For a line without line terminators the recipient is the text between the first '[' and the
    first ']' after it, possibly empty, and there is none exactly when no '[' has a ']' after it.
  */
  lemma FirstGroupIsFirstBracketPair(line: string)
    requires NoLineTerminator(line)
    ensures FirstGroup(line).None? <==>
            forall i, j :: 0 <= i < j < |line| ==> !(line[i] == '[' && line[j] == ']')
    ensures FirstGroup(line).Some? ==>
            exists i, j :: FirstBracketPair(line, i, j) && FirstGroup(line).value == line[i + 1..j]
  {
    SearchFindsLeftmost(line, AnyText);
    match Search(line, AnyText)
    case Some(sp) =>
      var i, j := sp.open, sp.close;
      forall k | 0 <= k < i ensures line[k] != '[' {
        if line[k] == '[' {
          // the '[' at k would have matched up to the first ']' after it
          var j' := IndexOf(line, ']', k + 1).value;
          assert MatchAt(line, AnyText, k, j');
        }
      }
      assert FirstBracketPair(line, i, j);
    case None =>
      forall i, j | 0 <= i < j < |line| && line[i] == '[' && line[j] == ']' ensures false {
        var j' := IndexOf(line, ']', i + 1).value;
        assert MatchAt(line, AnyText, i, j');
      }
  }

  lemma LastIndexOfAbsent(s: string, c: char)
    requires LastIndexOf(s, c) < 0
    ensures c !in s
  {
    forall k | 0 <= k < |s| ensures s[k] != c {
      assert LastIndexOf(s, c) < k;
    }
  }

  /**
    `getEmailDomain`: `email.substring(email.lastIndexOf('@') + 1)`, which is all of `email`
    when it holds no '@'.
  */
  function GetEmailDomain(email: string): (r: string)
    ensures |r| <= |email| && r == email[|email| - |r|..]
    ensures forall k :: 0 <= k < |r| ==> r[k] != '@'
    ensures |r| < |email| <==> '@' in email
    ensures |r| < |email| ==> email[|email| - |r| - 1] == '@'
  {
    var at := LastIndexOf(email, '@');
    if at < 0 then
      LastIndexOfAbsent(email, '@');
      email
    else
      var r := email[at + 1..];
      assert forall k :: 0 <= k < |r| ==> r[k] == email[at + 1 + k];
      r
  }

  /** The fields `main` derives from an accepted line; `sender` is computed and never used. */
  datatype Record = Record(recipient: string, sender: string, domain: string, subjectKeyword: string)

  /**
    The accept/reject decision: a record when all three searches succeed, with the domain taken
    from the first bracketed group (not from the email match).
  */
  function ParseLine(line: string): Option<Record> {
    var recipient, sender, keyword := FirstGroup(line), FirstEmail(line), FirstKeyword(line);
    if recipient.Some? && sender.Some? && keyword.Some? then
      Some(Record(recipient.value, sender.value, GetEmailDomain(recipient.value), keyword.value))
    else
      None
  }

  /** A line is accepted exactly when each of the three patterns matches somewhere in it. */
  lemma ParseLineAccepts(line: string)
    ensures ParseLine(line).Some? <==>
            && (exists i, j :: MatchAt(line, AnyText, i, j))
            && (exists i, j :: MatchAt(line, EmailAddress, i, j))
            && (exists i, j :: MatchAt(line, Letters, i, j))
  {
    SearchFindsLeftmost(line, AnyText);
    SearchFindsLeftmost(line, EmailAddress);
    SearchFindsLeftmost(line, Letters);
  }

  /** A line with no '[' matches none of the patterns and is rejected. */
  lemma NoBracketRejected(line: string)
    requires forall k :: 0 <= k < |line| ==> line[k] != '['
    ensures ParseLine(line).None?
  {
    ParseLineAccepts(line);
  }

  /** `group(1)` of the first pattern: the inside of its leftmost match. */
  lemma FirstGroupLeftmost(line: string)
    requires FirstGroup(line).Some?
    ensures exists i, j :: LeftmostMatch(line, AnyText, i, j) && FirstGroup(line).value == line[i + 1..j]
  {
    SearchFindsLeftmost(line, AnyText);
    var sp := Search(line, AnyText).value;
    assert LeftmostMatch(line, AnyText, sp.open, sp.close);
  }

  /** The first group holds no ']' and no line terminator: `.*?` stops at the first ']' and `.` skips no terminator. */
  lemma FirstGroupChars(line: string)
    requires FirstGroup(line).Some?
    ensures var g := FirstGroup(line).value;
            forall k :: 0 <= k < |g| ==> g[k] != ']' && !IsLineTerminator(g[k])
  {
    SearchFindsLeftmost(line, AnyText);
    var sp := Search(line, AnyText).value;
    var g := line[sp.open + 1..sp.close];
    assert MatchAt(line, AnyText, sp.open, sp.close);
    forall k | 0 <= k < |g| ensures g[k] != ']' {
      assert g[k] == line[sp.open + 1 + k];
    }
  }

  /**
    `group()` of the email pattern: its leftmost match, brackets included, which with the brackets
    stripped is an address.
  */
  lemma FirstEmailLeftmost(line: string)
    requires FirstEmail(line).Some?
    ensures exists i, j :: LeftmostMatch(line, EmailAddress, i, j) && FirstEmail(line).value == line[i..j + 1]
    ensures var m := FirstEmail(line).value; |m| >= 2 && IsEmailAddress(m[1..|m| - 1])
  {
    SearchFindsLeftmost(line, EmailAddress);
    var sp := Search(line, EmailAddress).value;
    assert LeftmostMatch(line, EmailAddress, sp.open, sp.close);
    MatchedTextIsAddress(FirstEmail(line).value, line, sp.open, sp.close);
  }

  /** The text `m` of an email match, brackets stripped, is an address. */
  lemma MatchedTextIsAddress(m: string, s: string, i: int, j: int)
    requires LeftmostMatch(s, EmailAddress, i, j) && m == s[i..j + 1]
    ensures |m| >= 2 && IsEmailAddress(m[1..|m| - 1])
  {
    InnerOfBracketed(s, i, j);
  }

  /** `group(1)` of the keyword pattern: the inside of its leftmost match, a run of letters. */
  lemma FirstKeywordLeftmost(line: string)
    requires FirstKeyword(line).Some?
    ensures exists i, j :: LeftmostMatch(line, Letters, i, j) && FirstKeyword(line).value == line[i + 1..j]
    ensures |FirstKeyword(line).value| > 0 && AllLetters(FirstKeyword(line).value)
  {
    SearchFindsLeftmost(line, Letters);
    var sp := Search(line, Letters).value;
    assert LeftmostMatch(line, Letters, sp.open, sp.close);
  }

  /** An accepted line's record holds the three searches' results and the recipient's domain. */
  lemma ParseLineFields(line: string)
    requires ParseLine(line).Some?
    ensures FirstGroup(line).Some? && FirstEmail(line).Some? && FirstKeyword(line).Some?
    ensures ParseLine(line).value
            == Record(FirstGroup(line).value, FirstEmail(line).value,
                      GetEmailDomain(FirstGroup(line).value), FirstKeyword(line).value)
    ensures ParseLine(line).value.recipient == FirstGroup(line).value
    ensures ParseLine(line).value.sender == FirstEmail(line).value
    ensures ParseLine(line).value.domain == GetEmailDomain(FirstGroup(line).value)
    ensures ParseLine(line).value.subjectKeyword == FirstKeyword(line).value
  {
  }

  /** The recipient is the text of the leftmost match of the first pattern. */
  lemma ParseLineRecipient(line: string)
    requires ParseLine(line).Some?
    ensures exists i, j :: LeftmostMatch(line, AnyText, i, j) && ParseLine(line).value.recipient == line[i + 1..j]
  {
    ParseLineFields(line);
    FirstGroupLeftmost(line);
  }

  /** The recipient holds no ']' and no line terminator. */
  lemma RecipientChars(line: string)
    requires ParseLine(line).Some?
    ensures var recipient := ParseLine(line).value.recipient;
            forall k :: 0 <= k < |recipient| ==> recipient[k] != ']' && !IsLineTerminator(recipient[k])
  {
    ParseLineFields(line);
    FirstGroupChars(line);
  }

  /**
    The aggregated domain comes from the recipient: it is the part of the recipient after its
    last '@' (all of it when there is none), and it holds no '@', no ']' and no line terminator.
  */
  lemma ParseLineDomain(line: string)
    requires ParseLine(line).Some?
    ensures var rec := ParseLine(line).value;
            && rec.domain == GetEmailDomain(rec.recipient)
            && rec.domain == rec.recipient[|rec.recipient| - |rec.domain|..]
            && ('@' in rec.recipient <==> |rec.domain| < |rec.recipient|)
            && (|rec.domain| < |rec.recipient| ==> rec.recipient[|rec.recipient| - |rec.domain| - 1] == '@')
            && (forall k :: 0 <= k < |rec.domain| ==>
                  rec.domain[k] != '@' && rec.domain[k] != ']' && !IsLineTerminator(rec.domain[k]))
  {
    ParseLineFields(line);
    FirstGroupChars(line);
    DomainChars(FirstGroup(line).value);
  }

  /** The domain of a text free of ']' and of line terminators is free of them too, and of '@'. */
  lemma DomainChars(recipient: string)
    requires forall k :: 0 <= k < |recipient| ==> recipient[k] != ']' && !IsLineTerminator(recipient[k])
    ensures forall k :: 0 <= k < |GetEmailDomain(recipient)| ==>
              var c := GetEmailDomain(recipient)[k]; c != '@' && c != ']' && !IsLineTerminator(c)
  {
    SuffixPointwise(recipient, GetEmailDomain(recipient));
  }

  /** A suffix holds, position by position, the last characters of the text. */
  lemma SuffixPointwise(s: string, t: string)
    requires |t| <= |s| && t == s[|s| - |t|..]
    ensures forall k :: 0 <= k < |t| ==> t[k] == s[|s| - |t| + k]
  {
  }

  /** The sender is the leftmost email match, brackets included. */
  lemma ParseLineSender(line: string)
    requires ParseLine(line).Some?
    ensures exists i, j :: LeftmostMatch(line, EmailAddress, i, j) && ParseLine(line).value.sender == line[i..j + 1]
  {
    ParseLineFields(line);
    FirstEmailLeftmost(line);
  }

  /** The sender, brackets stripped, reads as `local@dom.tld`. */
  lemma SenderIsEmailAddress(line: string)
    requires ParseLine(line).Some?
    ensures var sender := ParseLine(line).value.sender;
            |sender| >= 2 && EmailGrammar(sender[1..|sender| - 1])
  {
    ParsedRecordValid(line);
  }

  lemma FirstEmailGrammar(line: string)
    requires FirstEmail(line).Some?
    ensures var m := FirstEmail(line).value; |m| >= 2 && EmailGrammar(m[1..|m| - 1])
  {
    FirstEmailLeftmost(line);
    var m := FirstEmail(line).value;
    EmailScannerMatchesGrammar(m[1..|m| - 1]);
  }

  /**
    The keyword is the inside of the leftmost all-letters bracketed token, whichever field of the
    line that token belongs to.
  */
  lemma ParseLineKeyword(line: string)
    requires ParseLine(line).Some?
    ensures var keyword := ParseLine(line).value.subjectKeyword;
            && (exists i, j :: LeftmostMatch(line, Letters, i, j) && keyword == line[i + 1..j])
            && |keyword| > 0 && AllLetters(keyword)
  {
    ParseLineFields(line);
    FirstKeywordLeftmost(line);
  }

  /** The shape of every record the parser produces. */
  ghost predicate ValidRecord(rec: Record) {
    && NoLineTerminator(rec.recipient)
    && (forall k :: 0 <= k < |rec.recipient| ==> rec.recipient[k] != ']')
    && rec.domain == GetEmailDomain(rec.recipient)
    && |rec.sender| >= 2 && EmailGrammar(rec.sender[1..|rec.sender| - 1])
    && |rec.subjectKeyword| > 0 && AllLetters(rec.subjectKeyword)
  }

  lemma ParsedRecordValid(line: string)
    requires ParseLine(line).Some?
    ensures ValidRecord(ParseLine(line).value)
  {
    ParseLineFields(line);
    SearchesMakeValidRecord(line);
  }

  lemma SearchesMakeValidRecord(line: string)
    requires FirstGroup(line).Some? && FirstEmail(line).Some? && FirstKeyword(line).Some?
    ensures ValidRecord(Record(FirstGroup(line).value, FirstEmail(line).value,
                               GetEmailDomain(FirstGroup(line).value), FirstKeyword(line).value))
  {
    FirstGroupChars(line);
    FirstKeywordLeftmost(line);
    FirstEmailGrammar(line);
  }

  /** A valid record's domain, like its recipient, holds no line terminator. */
  lemma ValidRecordDomain(rec: Record)
    requires ValidRecord(rec)
    ensures NoLineTerminator(rec.domain)
  {
    DomainChars(rec.recipient);
  }
}
