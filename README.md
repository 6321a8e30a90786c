# Corporate file header sniff, modelled in Dafny

A Dafny model of `FileHeaderSniff`, the PHP_CodeSniffer sniff that enforces a corporate
header at the top of every PHP file. PHP_CodeSniffer calls the sniff on a file's
doc-comment open tag. The sniff takes a fixed header template, the `$template` heredoc.
It writes the configured copyright owner (`$codeOwner`, default `Blue Acorn iCi`) into the
template. When `$forceCurrentYear` is set (default off), it also writes the current year.
It then tokenises the result and compares it, token by token, with the file's own tokens
from the entry position on.

When the year is not forced, a file token is compared after a rewrite: if the expected
token holds the `YYYY` placeholder, every four-digit run in the file token becomes `YYYY`,
so any year is accepted there. The first pair whose type or content differs is reported as
one error. The error carries:

- the file token's line;
- the code `InvalidHeaderFormat`;
- either the message `Invalid token, unexpected line-break.` (when the expected content is
  a line break) or the message `Invalid token, expected "<content>".`

The project is split into four modules:

- `Strings` (`strings.dfy`) models PHP's `str_replace` and `strpos(...) !== false` as
  `ReplaceAll` and `Contains`.
  - `ReplaceAll` replaces left to right, without overlaps, and never rescans the
    replacement text.
  - Lemmas say where a replacement leaves text untouched, when no match survives, and when
    it creates none.
- `YearPattern` (`year_pattern.dfy`) models the placeholder `YYYY` and
  `preg_replace('/\d{4}/', 'YYYY', ...)` as `NormaliseYear`.
  - It uses ASCII digits and leftmost, non-overlapping matches.
  - Lemmas show that the rewrite leaves no four-digit run, is idempotent, and turns any
    year standing after a non-digit into the placeholder.
- `HeaderTemplate` (`header_template.dfy`) holds the configuration, the template and
  `ExpectedHeader`, the `str_replace` chain of `process`. Its lemmas give the exact header
  for both settings of the year flag and prove the following:
  - `OWNER` is gone whenever the owner does not contain it;
  - an unforced header keeps `YYYY`;
  - a forced header has no `YYYY` and does contain the year.
- `FileHeaderSniff` (`header_check.dfy`) holds tokens, outcomes, the error message, the
  per-pair comparison, the reference function `Check`, and the method `Process`.
  - `Process` keeps the source's loop: the pointer advances, the file token's content is
    rewritten before the comparison, and the method returns early.
  - `Process` is proved equal to `Check`.
  - `Check` is characterised by lemmas:
    - an error is reported exactly when some existing paired token differs, and it is the
      first such pair;
    - the pairing is by absolute index;
    - the guard `$stackPointer > count($standardFileTokens)` holds exactly when the entry
      position lies past half of the expected header;
    - when the year is not forced, changing a year that follows a non-digit in a
      placeholder slot never changes the outcome (with a forced year, a different year is
      rejected);
    - a file that carries the expected tokens is accepted.

The file's tokens and a tokenizer (`tokenize: string -> seq<Token>`) are inputs, and the
current year is a string parameter.

One consequence the model makes explicit is `DigitsBesidePlaceholderNeverMatch`. Only the
file's side of a pair has its digits rewritten. So when the year is not forced and an
expected token holds `YYYY` and also four digits in a row, no file token can ever match it. That happens, for example, with
a configured owner such as `Studio 1984`. This is why `ExactHeaderAccepted` states its
proviso for the unforced setting.

Two points of the code are easy to misread:

- **The guard.** The code compares the entry position with the number of expected tokens
  counted from that position, not with the whole header. So it skips only when the
  position lies past half of the expected header (`GuardSkipsPastHalf`).
- **Short files.** A file shorter than the header is not skipped as a whole. Pairs whose
  file token exists are still compared and can be reported. Only pairs without a file token
  are passed over.

## Model

| member | source | states |
|---|---|---|
| `Strings.ReplaceWithoutMatch` | Mediotype/Sniffs/PHP/FileHeaderSniff.php:62 | `str_replace` returns a text without an occurrence of the search string unchanged |
| `Strings.ReplaceSkipsPrefix` | Mediotype/Sniffs/PHP/FileHeaderSniff.php:62 | replacement passes unchanged over leading text that holds no first character of the search string |
| `Strings.ReplaceSkipsSuffix` | Mediotype/Sniffs/PHP/FileHeaderSniff.php:62 | replacement passes unchanged over trailing text that shares no character with the search string |
| `Strings.ReplaceAtStart` | Mediotype/Sniffs/PHP/FileHeaderSniff.php:62 | a match at the start is replaced and the scan resumes right after it |
| `Strings.ReplaceSole` | Mediotype/Sniffs/PHP/FileHeaderSniff.php:62 | a single occurrence surrounded by text where no match can start is replaced, and nothing else changes |
| `Strings.ReplaceLeavesNoMatch` | Mediotype/Sniffs/PHP/FileHeaderSniff.php:64 | when the replacement shares no character with the search string, no occurrence survives |
| `Strings.ReplaceAddsNoMatch` | Mediotype/Sniffs/PHP/FileHeaderSniff.php:64 | a replacement sharing no character with a text `q` creates no occurrence of `q` that was not there before |
| `Strings.ReplacedPrefixWasThere` | Mediotype/Sniffs/PHP/FileHeaderSniff.php:64 | text sharing no character with the replacement begins the result only where it began the input |
| `Strings.ContainsFirstChar` | Mediotype/Sniffs/PHP/FileHeaderSniff.php:84 | `strpos` finds a needle only in a haystack holding the needle's first character |
| `Strings.ContainsAtEnd` | Mediotype/Sniffs/PHP/FileHeaderSniff.php:84 | `strpos` finds a needle standing at the end of the haystack |
| `Strings.ContainsExtends` | Mediotype/Sniffs/PHP/FileHeaderSniff.php:84 | an occurrence is still found after any text is put in front |
| `Strings.ContainsExtendsRight` | Mediotype/Sniffs/PHP/FileHeaderSniff.php:84 | an occurrence is still found after any text is appended |
| `Strings.ContainsSkipsPrefix` | Mediotype/Sniffs/PHP/FileHeaderSniff.php:84 | leading text without the needle's first character adds no occurrence |
| `Strings.ContainsSplit` | Mediotype/Sniffs/PHP/FileHeaderSniff.php:84 | an occurrence in `t + b` lies in `t` or in `b` when `b`'s first character cannot continue a match |
| `YearPattern.NormaliseYear` | Mediotype/Sniffs/PHP/FileHeaderSniff.php:85-89 | the rewrite `preg_replace('/\d{4}/', 'YYYY', ...)` keeps the length of the text |
| `YearPattern.NormaliseRewritesOnlyDigits` | Mediotype/Sniffs/PHP/FileHeaderSniff.php:85-89 | only digits change, each into a `Y` |
| `YearPattern.NormaliseLeavesNoDigitRun` | Mediotype/Sniffs/PHP/FileHeaderSniff.php:85-89 | no run of four digits is left after the rewrite |
| `YearPattern.NormaliseKeepsDigitRunFree` | Mediotype/Sniffs/PHP/FileHeaderSniff.php:85-89 | a text without four digits in a row is left as it is |
| `YearPattern.NormaliseIdempotent` | Mediotype/Sniffs/PHP/FileHeaderSniff.php:85-89 | rewriting twice is the same as rewriting once |
| `YearPattern.NormaliseSplits` | Mediotype/Sniffs/PHP/FileHeaderSniff.php:85-89 | text not ending in a digit is rewritten independently of what follows it |
| `YearPattern.NormaliseLeadingYear` | Mediotype/Sniffs/PHP/FileHeaderSniff.php:85-89 | a four-digit year at the front becomes `YYYY`, and the rest is rewritten on its own |
| `YearPattern.NormaliseYearSlot` | Mediotype/Sniffs/PHP/FileHeaderSniff.php:84-89 | any year after text not ending in a digit becomes the placeholder `YYYY`, whichever year it is |
| `HeaderTemplate.OpenTagLacksInitials` | Mediotype/Sniffs/PHP/FileHeaderSniff.php:35-36 | the template's open tag and comment opening hold neither an `O` nor a `Y` |
| `HeaderTemplate.AuthorNameLacksInitials` | Mediotype/Sniffs/PHP/FileHeaderSniff.php:37 | the author's name in the template holds neither an `O` nor a `Y` |
| `HeaderTemplate.AuthorEmailLacksInitials` | Mediotype/Sniffs/PHP/FileHeaderSniff.php:37 | the author's e-mail address holds neither an `O` nor a `Y` |
| `HeaderTemplate.AuthorLineLacksInitials` | Mediotype/Sniffs/PHP/FileHeaderSniff.php:37 | the `@author` line holds neither an `O` nor a `Y` |
| `HeaderTemplate.CopyrightLabelLacksInitials` | Mediotype/Sniffs/PHP/FileHeaderSniff.php:38 | the `@copyright` label holds neither an `O` nor a `Y` |
| `HeaderTemplate.LeadLacksInitials` | Mediotype/Sniffs/PHP/FileHeaderSniff.php:34-38 | no `OWNER` or `YYYY` match can start in the template text before the year |
| `HeaderTemplate.TailLacksInitials` | Mediotype/Sniffs/PHP/FileHeaderSniff.php:38-41 | the text after the owner starts with `.` and holds neither an `O` nor a `Y` |
| `HeaderTemplate.OwnerSubstitution` | Mediotype/Sniffs/PHP/FileHeaderSniff.php:62 | the one `OWNER` in the copyright line is replaced by the owner and nothing else changes |
| `HeaderTemplate.YearSubstitution` | Mediotype/Sniffs/PHP/FileHeaderSniff.php:64 | `YYYY` in the copyright line becomes the year, and so does every `YYYY` inside the owner written in before it |
| `HeaderTemplate.HeaderWithOwner` | Mediotype/Sniffs/PHP/FileHeaderSniff.php:62-65 | without a forced year the header is the template with the owner in place of `OWNER`, and `YYYY` stays |
| `HeaderTemplate.HeaderWithCurrentYear` | Mediotype/Sniffs/PHP/FileHeaderSniff.php:62-65 | with a forced year the header has the year in place of `YYYY`, and the owner text also has its `YYYY` replaced |
| `HeaderTemplate.UnforcedHeaderKeepsPlaceholder` | Mediotype/Sniffs/PHP/FileHeaderSniff.php:63-65 | without a forced year the header still contains `YYYY` |
| `HeaderTemplate.OwnerInHeader` | Mediotype/Sniffs/PHP/FileHeaderSniff.php:62 | the header with the owner written in holds `OWNER` exactly when the owner does |
| `HeaderTemplate.OwnerPlaceholderReplaced` | Mediotype/Sniffs/PHP/FileHeaderSniff.php:62-65 | without a forced year: `OWNER` appears iff the owner contains it. In both modes: an owner without `OWNER` leaves none in the header |
| `HeaderTemplate.ForcedYearReplacesPlaceholder` | Mediotype/Sniffs/PHP/FileHeaderSniff.php:63-65 | with a forced four-digit year the header contains no `YYYY` and does contain the year |
| `FileHeaderSniff.ErrorMessage` | Mediotype/Sniffs/PHP/FileHeaderSniff.php:131-138 | the message is `Invalid token, unexpected line-break.` exactly when the expected content is `PHP_EOL` |
| `FileHeaderSniff.MessageLeadsApart` | Mediotype/Sniffs/PHP/FileHeaderSniff.php:134-137 | a quoting message never equals the line-break message |
| `FileHeaderSniff.QuotedContent` | Mediotype/Sniffs/PHP/FileHeaderSniff.php:137 | content read back from a message is exactly what stands between `Invalid token, expected "` and `".` |
| `FileHeaderSniff.ErrorMessageQuotesContent` | Mediotype/Sniffs/PHP/FileHeaderSniff.php:133-137 | reading a message back gives the expected content, or nothing when that content is a line break |
| `FileHeaderSniff.LineBreakMessageUnquoted` | Mediotype/Sniffs/PHP/FileHeaderSniff.php:134 | the line-break message quotes no content: reading it back gives nothing |
| `FileHeaderSniff.YearInTokenIgnored` | Mediotype/Sniffs/PHP/FileHeaderSniff.php:84-96 | without a forced year, two file tokens that differ only in the year are compared alike against an expected token holding `YYYY` |
| `FileHeaderSniff.ForcedYearComparesVerbatim` | Mediotype/Sniffs/PHP/FileHeaderSniff.php:84-96 | with a forced year a pair matches exactly when its types and its contents are equal as they are |
| `FileHeaderSniff.DigitsBesidePlaceholderNeverMatch` | Mediotype/Sniffs/PHP/FileHeaderSniff.php:84-96 | without a forced year, an expected token holding `YYYY` and four digits in a row is matched by no file token |
| `FileHeaderSniff.ExpectedTokens` | Mediotype/Sniffs/PHP/FileHeaderSniff.php:72 | `array_slice` from the entry position has the remaining count of tokens, or is empty when the position lies past the end |
| `FileHeaderSniff.ScanNoErrorIff` | Mediotype/Sniffs/PHP/FileHeaderSniff.php:79-106 | the loop reports nothing exactly when no existing paired file token differs |
| `FileHeaderSniff.ScanErrorIsFirst` | Mediotype/Sniffs/PHP/FileHeaderSniff.php:79-106 | a reported error belongs to the first differing pair, and every earlier pair matched or had no file token |
| `FileHeaderSniff.CheckReportsFirstMismatch` | Mediotype/Sniffs/PHP/FileHeaderSniff.php:72-107 | one call reports at most one error. It reports one exactly when the guard lets the scan run and some existing pair differs; the error is the first such pair's: it carries the file token's line, the code `InvalidHeaderFormat` and the message for the expected token |
| `FileHeaderSniff.GuardSkipsPastHalf` | Mediotype/Sniffs/PHP/FileHeaderSniff.php:72-76 | the early return happens exactly when twice the entry position exceeds the number of expected tokens |
| `FileHeaderSniff.ScanReadsOnlyPairedTokens` | Mediotype/Sniffs/PHP/FileHeaderSniff.php:79-81 | the loop reads the file only at the indices paired with expected tokens |
| `FileHeaderSniff.CheckReadsOnlyPairedTokens` | Mediotype/Sniffs/PHP/FileHeaderSniff.php:72-81 | the `k`-th expected token is compared only with the file token at index `stackPointer + k` |
| `FileHeaderSniff.ScanJudgesAlike` | Mediotype/Sniffs/PHP/FileHeaderSniff.php:79-106 | two files whose pairs are reported alike, on the same lines, get the same outcome |
| `FileHeaderSniff.PairIgnoresYear` | Mediotype/Sniffs/PHP/FileHeaderSniff.php:84-96 | changing the year of one file token never changes how a pair is judged when its expected token holds `YYYY` |
| `FileHeaderSniff.CheckIgnoresYear` | Mediotype/Sniffs/PHP/FileHeaderSniff.php:84-107 | without a forced year, a file differing only in a year in a placeholder slot gets the same outcome |
| `FileHeaderSniff.ExactHeaderAccepted` | Mediotype/Sniffs/PHP/FileHeaderSniff.php:79-107 | a file whose tokens have the expected types and contents from the entry position on is accepted, given that no placeholder token also holds four digits |
| `FileHeaderSniff.AnyYearAccepted` | Mediotype/Sniffs/PHP/FileHeaderSniff.php:79-107 | without a forced year, a file matching the expected tokens except for a real four-digit year where one expected token holds `YYYY` is accepted |
| `FileHeaderSniff.Process` | Mediotype/Sniffs/PHP/FileHeaderSniff.php:60-107 | `process` reports what `Check` gives for the file and the tokenised expected header |

The comparison and the substitution are built from these functions, which the lemmas above
are about:

- `Strings.ReplaceAll`, `str_replace` at lines 62 and 64;
- `Strings.Contains`, `strpos(...) !== false` at line 84;
- `HeaderTemplate.ExpectedHeader`, the substitution chain of lines 62-65;
- `FileHeaderSniff.TokenAt`, the read of the file token at line 81;
- `FileHeaderSniff.ComparedContent`, the year rewrite of the file token at lines 84-90;
- `FileHeaderSniff.Differs`, the type and content test at lines 92-96;
- `FileHeaderSniff.MismatchAt`, the pairing at line 81 with the test at lines 92-96;
- `FileHeaderSniff.ErrorFor`, the error reported at lines 98-102;
- `FileHeaderSniff.Scan`, the loop of lines 79-106;
- `FileHeaderSniff.Check`, the guard and the loop, lines 72-106.

The constants are defined alongside these members:

- `FileHeaderSniff.IssueInvalidFormat` (`InvalidHeaderFormat`, line 17);
- `YearPattern.YearPlaceholder` (`YYYY`, line 18);
- `HeaderTemplate.DefaultConfig` (year not forced, owner `Blue Acorn iCi`, lines 25 and 32);
- `HeaderTemplate.Template`, the heredoc of lines 34-41. It ends with the comment's closing
  line and a single newline, because the newline before `EOF` is not part of the string.

## Left out

- **Tokenising.** PHP_CodeSniffer's tokenizer is not part of this model. That covers
  `createStandardFile` (lines 115-122) and `$file->getTokens()` (line 68). The file's
  tokens are an input, and the tokenizer is a function parameter of `Process`.
- **Registration.** `register` (lines 48-51) only tells the host to call the sniff on
  `T_DOC_COMMENT_OPEN_TAG`. It is not modelled.
- **Error reporting.** `addErrorOnLine` is the host's reporting sink. `Process` returns the
  error (message, line, code) instead of reporting it.
- **The clock.** `date('Y')` is the `currentYear` parameter. Lemmas that need it to be a
  year require four ASCII digits, which is what `date('Y')` gives for the years 1000 to 9999.
- **Platform line break.** `PHP_EOL` is fixed to `"\n"`.
- **Missing file tokens.** A file token past the end of the file is read as absent, and its
  pair is skipped. PHP's own behaviour there is not modelled:
  - the undefined-offset notice, which PHP_CodeSniffer turns into an internal error;
  - line 85 turning an absent token into an array with empty content when the expected
    token holds `YYYY`.
- **Unused argument.** `getErrorMessage` receives the file token but never reads it.
  `ErrorMessage` takes only the expected token.
- **Example fixture.** The fixture file `Examples/InterceptorStructureMissingSee.php` holds
  no logic and is not modelled.
