/** The sniff's check of one file: the expected header is written out, tokenised, and compared
    token by token with the file from the position of the doc-comment open tag onwards; the
    first pair that differs is reported as an error on the line of the file's token. */
module FileHeaderSniff {
  import opened Strings
  import opened YearPattern
  import opened HeaderTemplate

  datatype Option<T> = None | Some(value: T)

  /** A token as the tokenizer gives it: its type, its text and the line it starts on. */
  datatype Token = Token(kind: string, content: string, line: int)

  /** What one call of `process` reports: nothing, or one error with its message, the line it
      is reported on and the issue code. */
  datatype Outcome = NoError | Error(message: string, line: int, code: string)

  const IssueInvalidFormat: string := "InvalidHeaderFormat"

  /** `PHP_EOL` on the platforms the sniff runs on. */
  const Eol: string := "\n"

  const MessageLead: string := "Invalid token, "
  const LineBreakMessage: string := MessageLead + "unexpected line-break."
  const ExpectedLead: string := MessageLead + "expected \""
  const ExpectedEnd: string := "\"."

  // ---- the message ----

  /** The message for an expected token the file does not match: a line break is named as
      such, any other content is quoted. The message is the line-break one exactly when the
      expected content is `PHP_EOL`. */
  function ErrorMessage(standard: Token): (msg: string)
    ensures msg == LineBreakMessage <==> standard.content == Eol
  {
    if standard.content == Eol then LineBreakMessage
    else
      MessageLeadsApart(standard.content);
      ExpectedLead + standard.content + ExpectedEnd
  }

  /** The two kinds of message part ways right after the shared lead. */
  lemma MessageLeadsApart(content: string)
    ensures ExpectedLead + content + ExpectedEnd != LineBreakMessage
  {
    var m := ExpectedLead + content + ExpectedEnd;
    assert m[15] == 'e';
    assert LineBreakMessage[15] == 'u';
  }

  /** The content a message of the second kind quotes, read back from the message. */
  function QuotedContent(msg: string): (r: Option<string>)
    ensures r.Some? ==> msg == ExpectedLead + r.value + ExpectedEnd
  {
    if |ExpectedLead| + |ExpectedEnd| <= |msg|
       && msg[..|ExpectedLead|] == ExpectedLead
       && msg[|msg| - |ExpectedEnd|..] == ExpectedEnd
    then
      var r := msg[|ExpectedLead|..|msg| - |ExpectedEnd|];
      assert msg == msg[..|ExpectedLead|] + r + msg[|msg| - |ExpectedEnd|..];
      Some(r)
    else None
  }

  /** The message names exactly the expected content: reading it back gives that content,
      and nothing for a line break. */
  lemma ErrorMessageQuotesContent(standard: Token)
    ensures QuotedContent(ErrorMessage(standard))
         == if standard.content == Eol then None else Some(standard.content)
  {
    var msg := ErrorMessage(standard);
    if standard.content == Eol {
      LineBreakMessageUnquoted();
    } else {
      var c := standard.content;
      assert msg == ExpectedLead + c + ExpectedEnd;
      assert msg[..|ExpectedLead|] == ExpectedLead;
      assert msg[|msg| - |ExpectedEnd|..] == ExpectedEnd;
      assert msg[|ExpectedLead|..|msg| - |ExpectedEnd|] == c;
    }
  }

  /** The line-break message quotes nothing: it parts from the quoting lead after the
      shared words. */
  lemma LineBreakMessageUnquoted()
    ensures QuotedContent(LineBreakMessage) == None
  {
    assert LineBreakMessage[15] != ExpectedLead[15];
  }

  // ---- one pair of tokens ----

  /** The file's token at an index, or nothing past the end of the file. */
  function TokenAt(tokens: seq<Token>, i: nat): (r: Option<Token>) {
    if i < |tokens| then Some(tokens[i]) else None
  }

  /** The content the file's token is compared with the expected one by: when the year is
      not forced and the expected content holds the year placeholder, every year in it is
      first rewritten to the placeholder. */
  function ComparedContent(forceCurrentYear: bool, standard: Token, current: Token): (compared: string) {
    if !forceCurrentYear && Contains(standard.content, YearPlaceholder) then
      NormaliseYear(current.content)
    else
      current.content
  }

  /** The pair differs in type or in the compared content. */
  predicate Differs(forceCurrentYear: bool, standard: Token, current: Token) {
    current.kind != standard.kind || ComparedContent(forceCurrentYear, standard, current) != standard.content
  }

  /** In the copyright line, any year the file gives is accepted where the expected content
      holds the placeholder: two tokens that differ only in that year are judged alike. */
  lemma YearInTokenIgnored(standard: Token, kind: string, line: int, p: string, y1: string, y2: string, q: string)
    requires Contains(standard.content, YearPlaceholder)
    requires EndsWithoutDigit(p) && IsYear(y1) && IsYear(y2)
    ensures ComparedContent(false, standard, Token(kind, p + y1 + q, line))
         == ComparedContent(false, standard, Token(kind, p + y2 + q, line))
    ensures Differs(false, standard, Token(kind, p + y1 + q, line))
        == Differs(false, standard, Token(kind, p + y2 + q, line))
  {
    NormaliseYearSlot(p, y1, q);
    NormaliseYearSlot(p, y2, q);
  }

  /** With the year forced, the file's content is compared as it is. */
  lemma ForcedYearComparesVerbatim(standard: Token, current: Token)
    ensures !Differs(true, standard, current) <==> current.kind == standard.kind && current.content == standard.content
  {
  }

  /** Without a forced year, an expected token that holds the placeholder and also four digits
      in a row (an owner such as "Studio 1984" in the copyright line) is matched by no file
      token: only the file's side has its digits rewritten, so it never keeps a digit run. */
  lemma DigitsBesidePlaceholderNeverMatch(standard: Token, current: Token)
    requires Contains(standard.content, YearPlaceholder) && HasDigitRun(standard.content)
    ensures Differs(false, standard, current)
  {
    NormaliseLeavesNoDigitRun(current.content);
  }

  // ---- the comparison over the whole header ----

  /** `array_slice($standardFileTokens, $stackPointer)`: the expected tokens from the entry
      position on, none when the position lies past their end. */
  function ExpectedTokens(standardTokens: seq<Token>, stackPointer: nat): (r: seq<Token>)
    ensures stackPointer <= |standardTokens| ==> |r| == |standardTokens| - stackPointer
    ensures stackPointer > |standardTokens| ==> r == []
  {
    if stackPointer <= |standardTokens| then standardTokens[stackPointer..] else []
  }

  /** The `k`-th expected token is paired with the file's token at `stackPointer + k`; the
      pair is reported when that token exists and differs. */
  predicate MismatchAt(actual: seq<Token>, stackPointer: nat, expected: seq<Token>, forceCurrentYear: bool, k: nat)
    requires k < |expected|
  {
    stackPointer + k < |actual| && Differs(forceCurrentYear, expected[k], actual[stackPointer + k])
  }

  /** The error for a pair: the message is chosen by the expected token, the line is the
      file token's, the code is always the same. */
  function ErrorFor(standard: Token, current: Token): (o: Outcome) {
    Error(ErrorMessage(standard), current.line, IssueInvalidFormat)
  }

  /** The comparison from the `k`-th expected token on: the first pair that differs is
      reported and ends the scan. */
  function Scan(actual: seq<Token>, stackPointer: nat, expected: seq<Token>, forceCurrentYear: bool, k: nat): (outcome: Outcome)
    requires k <= |expected|
    decreases |expected| - k
  {
    if k == |expected| then NoError
    else if MismatchAt(actual, stackPointer, expected, forceCurrentYear, k) then
      ErrorFor(expected[k], actual[stackPointer + k])
    else Scan(actual, stackPointer, expected, forceCurrentYear, k + 1)
  }

  /** What `process` reports for a file, given the tokens of the expected header: nothing when
      the entry position lies past the expected tokens counted from it, otherwise the result
      of the scan. */
  function Check(actual: seq<Token>, stackPointer: nat, standardTokens: seq<Token>, forceCurrentYear: bool): (outcome: Outcome) {
    var expected := ExpectedTokens(standardTokens, stackPointer);
    if stackPointer > |expected| then NoError
    else Scan(actual, stackPointer, expected, forceCurrentYear, 0)
  }

  /** The pair at index `j` is the first reported one from index `k` on. */
  predicate FirstMismatchFrom(actual: seq<Token>, stackPointer: nat, expected: seq<Token>, forceCurrentYear: bool, k: nat, j: nat)
  {
    k <= j < |expected|
    && MismatchAt(actual, stackPointer, expected, forceCurrentYear, j)
    && forall i :: k <= i < j ==> !MismatchAt(actual, stackPointer, expected, forceCurrentYear, i)
  }

  /** The scan reports nothing exactly when no pair from `k` on differs. */
  lemma {:induction false} ScanNoErrorIff(actual: seq<Token>, stackPointer: nat, expected: seq<Token>, forceCurrentYear: bool, k: nat)
    requires k <= |expected|
    ensures Scan(actual, stackPointer, expected, forceCurrentYear, k) == NoError
        <==> forall j :: k <= j < |expected| ==> !MismatchAt(actual, stackPointer, expected, forceCurrentYear, j)
    decreases |expected| - k
  {
    if k < |expected| && !MismatchAt(actual, stackPointer, expected, forceCurrentYear, k) {
      ScanNoErrorIff(actual, stackPointer, expected, forceCurrentYear, k + 1);
    }
  }

  /** An error the scan reports from `k` on is the error for the first pair that differs. */
  lemma {:induction false} ScanErrorIsFirst(actual: seq<Token>, stackPointer: nat, expected: seq<Token>, forceCurrentYear: bool, k: nat)
    requires k <= |expected|
    ensures Scan(actual, stackPointer, expected, forceCurrentYear, k) != NoError ==>
      exists j: nat :: FirstMismatchFrom(actual, stackPointer, expected, forceCurrentYear, k, j)
        && Scan(actual, stackPointer, expected, forceCurrentYear, k)
           == ErrorFor(expected[j], actual[stackPointer + j])
    decreases |expected| - k
  {
    if k < |expected| {
      if MismatchAt(actual, stackPointer, expected, forceCurrentYear, k) {
        assert FirstMismatchFrom(actual, stackPointer, expected, forceCurrentYear, k, k);
      } else {
        ScanErrorIsFirst(actual, stackPointer, expected, forceCurrentYear, k + 1);
        if Scan(actual, stackPointer, expected, forceCurrentYear, k + 1) != NoError {
          var j: nat :| FirstMismatchFrom(actual, stackPointer, expected, forceCurrentYear, k + 1, j)
            && Scan(actual, stackPointer, expected, forceCurrentYear, k + 1)
               == ErrorFor(expected[j], actual[stackPointer + j]);
          assert FirstMismatchFrom(actual, stackPointer, expected, forceCurrentYear, k, j);
        }
      }
    }
  }

  /** At most one error is reported, and only past the guard: it is the error for the first
      expected token, counted from the entry position, whose paired file token exists and
      differs; every earlier pair matched or had no file token. When no pair differs, nothing
      is reported. */
  lemma CheckReportsFirstMismatch(actual: seq<Token>, stackPointer: nat, standardTokens: seq<Token>, forceCurrentYear: bool)
    ensures var expected := ExpectedTokens(standardTokens, stackPointer);
      Check(actual, stackPointer, standardTokens, forceCurrentYear) != NoError
      <==> stackPointer <= |expected|
           && exists j :: 0 <= j < |expected| && MismatchAt(actual, stackPointer, expected, forceCurrentYear, j)
    ensures var expected := ExpectedTokens(standardTokens, stackPointer);
      var outcome := Check(actual, stackPointer, standardTokens, forceCurrentYear);
      outcome != NoError ==>
        exists j: nat :: FirstMismatchFrom(actual, stackPointer, expected, forceCurrentYear, 0, j)
          && outcome.line == actual[stackPointer + j].line
          && outcome.code == IssueInvalidFormat
          && outcome.message == ErrorMessage(standardTokens[stackPointer + j])
  {
    var expected := ExpectedTokens(standardTokens, stackPointer);
    if stackPointer <= |expected| {
      ScanNoErrorIff(actual, stackPointer, expected, forceCurrentYear, 0);
      ScanErrorIsFirst(actual, stackPointer, expected, forceCurrentYear, 0);
    }
  }

  /** The guard: the expected tokens counted from the entry position are fewer than the
      position itself exactly when the position lies past half the expected header. */
  lemma GuardSkipsPastHalf(standardTokens: seq<Token>, stackPointer: nat)
    ensures stackPointer > |ExpectedTokens(standardTokens, stackPointer)| <==> 2 * stackPointer > |standardTokens|
  {
  }

  /** Two files whose tokens agree wherever they are paired with an expected token are
      judged alike from `k` on. */
  lemma {:induction false} ScanReadsOnlyPairedTokens(actual1: seq<Token>, actual2: seq<Token>, stackPointer: nat, expected: seq<Token>, forceCurrentYear: bool, k: nat)
    requires k <= |expected|
    requires forall i :: stackPointer + k <= i < stackPointer + |expected| ==> TokenAt(actual1, i) == TokenAt(actual2, i)
    ensures Scan(actual1, stackPointer, expected, forceCurrentYear, k) == Scan(actual2, stackPointer, expected, forceCurrentYear, k)
    decreases |expected| - k
  {
    if k < |expected| {
      assert TokenAt(actual1, stackPointer + k) == TokenAt(actual2, stackPointer + k);
      ScanReadsOnlyPairedTokens(actual1, actual2, stackPointer, expected, forceCurrentYear, k + 1);
    }
  }

  /** Pairing is by absolute index: the outcome depends on the file's tokens only at the
      indices the expected tokens are paired with. */
  lemma CheckReadsOnlyPairedTokens(actual1: seq<Token>, actual2: seq<Token>, stackPointer: nat, standardTokens: seq<Token>, forceCurrentYear: bool)
    requires forall i :: stackPointer <= i < |standardTokens| ==> TokenAt(actual1, i) == TokenAt(actual2, i)
    ensures Check(actual1, stackPointer, standardTokens, forceCurrentYear) == Check(actual2, stackPointer, standardTokens, forceCurrentYear)
  {
    var expected := ExpectedTokens(standardTokens, stackPointer);
    if stackPointer <= |expected| {
      ScanReadsOnlyPairedTokens(actual1, actual2, stackPointer, expected, forceCurrentYear, 0);
    }
  }

  /** The pairs from `k` on are reported alike for two files, and where they are reported
      the two file tokens stand on the same line. */
  predicate PairsJudgedAlike(actual1: seq<Token>, actual2: seq<Token>, stackPointer: nat, expected: seq<Token>, forceCurrentYear: bool, k: nat)
    requires k <= |expected|
  {
    forall j :: k <= j < |expected| ==>
      MismatchAt(actual1, stackPointer, expected, forceCurrentYear, j) == MismatchAt(actual2, stackPointer, expected, forceCurrentYear, j)
      && (MismatchAt(actual1, stackPointer, expected, forceCurrentYear, j) ==>
            actual1[stackPointer + j].line == actual2[stackPointer + j].line)
  }

  /** Files whose pairs are judged alike get the same outcome from the scan. */
  lemma {:induction false} ScanJudgesAlike(actual1: seq<Token>, actual2: seq<Token>, stackPointer: nat, expected: seq<Token>, forceCurrentYear: bool, k: nat)
    requires k <= |expected|
    requires PairsJudgedAlike(actual1, actual2, stackPointer, expected, forceCurrentYear, k)
    ensures Scan(actual1, stackPointer, expected, forceCurrentYear, k) == Scan(actual2, stackPointer, expected, forceCurrentYear, k)
    decreases |expected| - k
  {
    if k < |expected| && !MismatchAt(actual1, stackPointer, expected, forceCurrentYear, k) {
      ScanJudgesAlike(actual1, actual2, stackPointer, expected, forceCurrentYear, k + 1);
    }
  }

  /** A pair is judged alike before and after the year of one file token is changed, when
      the expected token that token is paired with holds the placeholder. */
  lemma PairIgnoresYear(actual1: seq<Token>, stackPointer: nat, expected: seq<Token>, j: nat, i: nat, p: string, y1: string, y2: string, q: string)
    requires j < |expected|
    requires i < |actual1| && actual1[i].content == p + y1 + q
    requires EndsWithoutDigit(p) && IsYear(y1) && IsYear(y2)
    requires stackPointer + j == i ==> Contains(expected[j].content, YearPlaceholder)
    ensures var actual2 := actual1[i := actual1[i].(content := p + y2 + q)];
      MismatchAt(actual1, stackPointer, expected, false, j) == MismatchAt(actual2, stackPointer, expected, false, j)
      && (stackPointer + j < |actual1| ==> actual1[stackPointer + j].line == actual2[stackPointer + j].line)
  {
    if stackPointer + j == i {
      var t := actual1[i];
      assert t == Token(t.kind, p + y1 + q, t.line);
      YearInTokenIgnored(expected[j], t.kind, t.line, p, y1, y2, q);
    }
  }

  /** Any year is accepted in the copyright line: a file that differs from another only in
      the four-digit year of a token whose expected counterpart holds the placeholder gets
      the same outcome when the year is not forced. */
  lemma CheckIgnoresYear(actual1: seq<Token>, stackPointer: nat, standardTokens: seq<Token>, i: nat, p: string, y1: string, y2: string, q: string)
    requires i < |actual1| && actual1[i].content == p + y1 + q
    requires EndsWithoutDigit(p) && IsYear(y1) && IsYear(y2)
    requires i < |standardTokens| ==> Contains(standardTokens[i].content, YearPlaceholder)
    ensures Check(actual1, stackPointer, standardTokens, false)
         == Check(actual1[i := actual1[i].(content := p + y2 + q)], stackPointer, standardTokens, false)
  {
    var actual2 := actual1[i := actual1[i].(content := p + y2 + q)];
    var expected := ExpectedTokens(standardTokens, stackPointer);
    if stackPointer <= |expected| {
      forall j | 0 <= j < |expected|
        ensures MismatchAt(actual1, stackPointer, expected, false, j) == MismatchAt(actual2, stackPointer, expected, false, j)
        ensures stackPointer + j < |actual1| ==> actual1[stackPointer + j].line == actual2[stackPointer + j].line
      {
        assert stackPointer + j == i ==> expected[j] == standardTokens[i];
        PairIgnoresYear(actual1, stackPointer, expected, j, i, p, y1, y2, q);
      }
      ScanJudgesAlike(actual1, actual2, stackPointer, expected, false, 0);
    }
  }

  /** A file carrying the expected tokens from the entry position on is accepted. When the year
      is not forced, no expected token that holds the year placeholder may also hold four
      digits in a row (see `DigitsBesidePlaceholderNeverMatch` for why that proviso is
      needed). */
  lemma ExactHeaderAccepted(actual: seq<Token>, stackPointer: nat, standardTokens: seq<Token>, forceCurrentYear: bool)
    requires forall i :: stackPointer <= i < |standardTokens| && i < |actual|
               ==> actual[i].kind == standardTokens[i].kind && actual[i].content == standardTokens[i].content
    requires !forceCurrentYear ==>
               forall i :: 0 <= i < |standardTokens| && Contains(standardTokens[i].content, YearPlaceholder)
                 ==> !HasDigitRun(standardTokens[i].content)
    ensures Check(actual, stackPointer, standardTokens, forceCurrentYear) == NoError
  {
    var expected := ExpectedTokens(standardTokens, stackPointer);
    if stackPointer <= |expected| {
      forall j | 0 <= j < |expected|
        ensures !MismatchAt(actual, stackPointer, expected, forceCurrentYear, j)
      {
        var i := stackPointer + j;
        if i < |actual| {
          assert expected[j] == standardTokens[i];
          if !forceCurrentYear && Contains(expected[j].content, YearPlaceholder) {
            NormaliseKeepsDigitRunFree(expected[j].content);
          }
        }
      }
      CheckReportsFirstMismatch(actual, stackPointer, standardTokens, forceCurrentYear);
    }
  }

  /** Without a forced year, a file that carries the expected tokens from the entry position
      on is accepted whatever year it gives where an expected token holds the placeholder:
      the file's token at index `c` may hold any four digits `y` where the expected one holds
      `YYYY`, with text that has no four digits in a row around them. */
  lemma AnyYearAccepted(actual: seq<Token>, stackPointer: nat, standardTokens: seq<Token>, c: nat, p: string, y: string, q: string)
    requires forall i :: stackPointer <= i < |standardTokens| && i < |actual| && i != c
               ==> actual[i].kind == standardTokens[i].kind && actual[i].content == standardTokens[i].content
    requires forall i :: 0 <= i < |standardTokens| && Contains(standardTokens[i].content, YearPlaceholder)
               ==> !HasDigitRun(standardTokens[i].content)
    requires c < |standardTokens| && c < |actual|
    requires standardTokens[c].content == p + YearPlaceholder + q
    requires actual[c].kind == standardTokens[c].kind && actual[c].content == p + y + q
    requires EndsWithoutDigit(p) && !HasDigitRun(p) && !HasDigitRun(q) && IsYear(y)
    ensures Check(actual, stackPointer, standardTokens, false) == NoError
  {
    var expected := ExpectedTokens(standardTokens, stackPointer);
    if stackPointer <= |expected| {
      forall j | 0 <= j < |expected|
        ensures !MismatchAt(actual, stackPointer, expected, false, j)
      {
        var i := stackPointer + j;
        assert expected[j] == standardTokens[i];
        if i == c {
          ContainsAtEnd(p, YearPlaceholder);
          ContainsExtendsRight(p + YearPlaceholder, q, YearPlaceholder);
          NormaliseYearSlot(p, y, q);
          NormaliseKeepsDigitRunFree(p);
          NormaliseKeepsDigitRunFree(q);
        } else if i < |actual| && Contains(expected[j].content, YearPlaceholder) {
          NormaliseKeepsDigitRunFree(expected[j].content);
        }
      }
      CheckReportsFirstMismatch(actual, stackPointer, standardTokens, false);
    }
  }

  // ---- process ----

  /** `process`: writes the owner and, when forced, the current year into the template, has
      `tokenize` turn the result into tokens, and compares them with the file's tokens from
      the entry position on, returning at the first pair that differs. A file token past the
      end of the file is skipped. */
  method Process(config: Config, fileTokens: seq<Token>, stackPointer: nat, tokenize: string -> seq<Token>, currentYear: string)
    returns (outcome: Outcome)
    ensures outcome == Check(fileTokens, stackPointer, tokenize(ExpectedHeader(config, currentYear)), config.forceCurrentYear)
  {
    var force := config.forceCurrentYear;
    var template := ReplaceAll(Template(), OwnerPlaceholder, config.codeOwner);
    if force {
      template := ReplaceAll(template, YearPlaceholder, currentYear);
    }
    assert template == ExpectedHeader(config, currentYear);
    var standardFileTokens := ExpectedTokens(tokenize(template), stackPointer);
    if stackPointer > |standardFileTokens| {
      return NoError;
    }
    var pointer := stackPointer;
    var k := 0;
    while k < |standardFileTokens|
      invariant 0 <= k <= |standardFileTokens|
      invariant pointer == stackPointer + k
      invariant Scan(fileTokens, stackPointer, standardFileTokens, force, 0)
             == Scan(fileTokens, stackPointer, standardFileTokens, force, k)
    {
      var standardToken := standardFileTokens[k];
      var currentToken := TokenAt(fileTokens, pointer);
      pointer := pointer + 1;
      if currentToken.Some? && !force && Contains(standardToken.content, YearPlaceholder) {
        currentToken := Some(currentToken.value.(content := NormaliseYear(currentToken.value.content)));
      }
      ghost var mismatch := MismatchAt(fileTokens, stackPointer, standardFileTokens, force, k);
      assert currentToken.Some? ==>
        currentToken.value == fileTokens[stackPointer + k].(content := ComparedContent(force, standardToken, fileTokens[stackPointer + k]));
      assert mismatch <==>
        currentToken.Some? && (currentToken.value.kind != standardToken.kind || currentToken.value.content != standardToken.content);
      if currentToken.Some?
         && (currentToken.value.kind != standardToken.kind || currentToken.value.content != standardToken.content)
      {
        return Error(ErrorMessage(standardToken), currentToken.value.line, IssueInvalidFormat);
      }
      assert !mismatch;
      k := k + 1;
    }
    return NoError;
  }
}
