/** The corporate header the sniff expects, and how the configured copyright owner and, when
    asked for, the current year are written into it. */
module HeaderTemplate {
  import opened Strings
  import opened YearPattern

  /** The sniff's two configurable properties. */
  datatype Config = Config(forceCurrentYear: bool, codeOwner: string)

  const DefaultCodeOwner: string := "Blue Acorn iCi"
  const DefaultConfig: Config := Config(false, DefaultCodeOwner)

  const OwnerPlaceholder: string := "OWNER"

  /** The header text as the heredoc spells it, line by line: the PHP open tag, the opening
      of a doc comment, the `@author` line, the `@copyright YYYY OWNER. All Rights Reserved.`
      line and the closing of the comment. The newline before the closing `EOF` is not part
      of the string, so the text ends with the comment's closing line and one newline. It is
      put together from the text before the year, the two placeholders and the text after
      the owner. */
  function Template(): (template: string) {
    CopyrightLead() + YearPlaceholder + " " + OwnerPlaceholder + HeaderTail()
  }

  /** The template up to the year of the copyright line. */
  function CopyrightLead(): string {
    OpenTag() + AuthorLine() + CopyrightLabel()
  }

  function OpenTag(): string {
    "<?php\n" + "/**\n"
  }

  function AuthorLine(): string {
    " * @author    " + AuthorName() + " <" + AuthorEmail() + ">\n"
  }

  function AuthorName(): string {
    "Blue Acorn iCi"
  }

  function AuthorEmail(): string {
    "code@" + "blueacornici.com"
  }

  function CopyrightLabel(): string {
    " * @copyright "
  }

  /** The template after the owner. */
  function HeaderTail(): string {
    ". All Rights Reserved.\n" + " */\n"
  }

  /** The header text with the owner written in, and with the year written in when the
      configuration forces the current year; `currentYear` stands for `date('Y')`. */
  function ExpectedHeader(config: Config, currentYear: string): (header: string) {
    var withOwner := ReplaceAll(Template(), OwnerPlaceholder, config.codeOwner);
    if config.forceCurrentYear then ReplaceAll(withOwner, YearPlaceholder, currentYear)
    else withOwner
  }

  // ---- the fixed text around the placeholders holds neither an 'O' nor a 'Y' ----

  lemma OpenTagLacksInitials()
    ensures 'O' !in OpenTag() && 'Y' !in OpenTag()
  {
  }

  lemma AuthorNameLacksInitials()
    ensures 'O' !in AuthorName() && 'Y' !in AuthorName()
  {
  }

  lemma AuthorEmailLacksInitials()
    ensures 'O' !in AuthorEmail() && 'Y' !in AuthorEmail()
  {
  }

  lemma AuthorLineLacksInitials()
    ensures 'O' !in AuthorLine() && 'Y' !in AuthorLine()
  {
    AuthorNameLacksInitials();
    AuthorEmailLacksInitials();
  }

  lemma CopyrightLabelLacksInitials()
    ensures 'O' !in CopyrightLabel() && 'Y' !in CopyrightLabel()
  {
  }

  /** So no match of either placeholder can start in the text before the year. */
  lemma LeadLacksInitials()
    ensures 'O' !in CopyrightLead() && 'Y' !in CopyrightLead()
  {
    OpenTagLacksInitials();
    AuthorLineLacksInitials();
    CopyrightLabelLacksInitials();
  }

  /** So no match of either placeholder can start in the text after the owner, and no
      match started in the owner can run into it. */
  lemma TailLacksInitials()
    ensures 'O' !in HeaderTail() && 'Y' !in HeaderTail()
    ensures |HeaderTail()| > 0 && HeaderTail()[0] == '.'
  {
  }

  // ---- substitution of the placeholders, for any text around them ----

  /** `OWNER` standing once between texts without an 'O' is replaced by the owner. */
  lemma OwnerSubstitution(lead: string, tail: string, owner: string)
    requires 'O' !in lead && 'O' !in tail
    ensures ReplaceAll(lead + YearPlaceholder + " " + OwnerPlaceholder + tail, OwnerPlaceholder, owner)
         == lead + YearPlaceholder + " " + owner + tail
  {
    assert 'O' !in YearPlaceholder + " ";
    ReplaceSole(lead + YearPlaceholder + " ", tail, OwnerPlaceholder, owner);
  }

  /** `YYYY` standing between texts without a 'Y' is replaced by the year, and so is every
      `YYYY` in the owner written in after it. */
  lemma YearSubstitution(lead: string, owner: string, tail: string, year: string)
    requires 'Y' !in lead && 'Y' !in tail
    ensures ReplaceAll(lead + YearPlaceholder + " " + owner + tail, YearPlaceholder, year)
         == lead + year + " " + ReplaceAll(owner, YearPlaceholder, year) + tail
  {
    var yy := YearPlaceholder;
    var r := ReplaceAll(owner, yy, year);
    assert Disjoint(yy, tail);
    Associative(lead + yy + " ", owner, tail);
    Associative(lead + yy, " ", owner + tail);
    Associative(lead, yy, " " + (owner + tail));
    ReplaceSkipsPrefix(lead, yy + (" " + (owner + tail)), yy, year);
    ReplaceAtStart(yy, " " + (owner + tail), year);
    ReplaceSkipsPrefix(" ", owner + tail, yy, year);
    ReplaceSkipsSuffix(owner, tail, yy, year);
    Associative(lead + year + " ", r, tail);
    Associative(lead + year, " ", r + tail);
    Associative(lead, year, " " + (r + tail));
  }

  // ---- the header the sniff expects ----

  /** Without a forced year, the owner takes the place of `OWNER` and the year placeholder
      stays as it is. */
  lemma HeaderWithOwner(codeOwner: string, currentYear: string)
    ensures ExpectedHeader(Config(false, codeOwner), currentYear)
         == CopyrightLead() + YearPlaceholder + " " + codeOwner + HeaderTail()
  {
    LeadLacksInitials();
    TailLacksInitials();
    OwnerSubstitution(CopyrightLead(), HeaderTail(), codeOwner);
  }

  /** With a forced year, the year takes the place of `YYYY` both in the template and in
      the owner text that was written in before it. */
  lemma HeaderWithCurrentYear(codeOwner: string, currentYear: string)
    ensures ExpectedHeader(Config(true, codeOwner), currentYear)
         == CopyrightLead() + currentYear + " "
            + ReplaceAll(codeOwner, YearPlaceholder, currentYear) + HeaderTail()
  {
    HeaderWithOwner(codeOwner, currentYear);
    LeadLacksInitials();
    TailLacksInitials();
    YearSubstitution(CopyrightLead(), codeOwner, HeaderTail(), currentYear);
  }

  /** Without a forced year the header keeps the year placeholder, so the sniff compares
      the copyright line with its year normalised. */
  lemma UnforcedHeaderKeepsPlaceholder(codeOwner: string, currentYear: string)
    ensures Contains(ExpectedHeader(Config(false, codeOwner), currentYear), YearPlaceholder)
  {
    HeaderWithOwner(codeOwner, currentYear);
    var lead := CopyrightLead();
    ContainsAtEnd(lead, YearPlaceholder);
    ContainsExtendsRight(lead + YearPlaceholder, " ", YearPlaceholder);
    ContainsExtendsRight(lead + YearPlaceholder + " ", codeOwner, YearPlaceholder);
    ContainsExtendsRight(lead + YearPlaceholder + " " + codeOwner, HeaderTail(), YearPlaceholder);
  }

  /** Without a forced year, the header holds `OWNER` exactly when the configured owner
      does; with a forced year, an owner without `OWNER` still leaves none behind. */
  lemma OwnerPlaceholderReplaced(config: Config, currentYear: string)
    requires IsYear(currentYear)
    ensures !config.forceCurrentYear ==>
      (Contains(ExpectedHeader(config, currentYear), OwnerPlaceholder)
       <==> Contains(config.codeOwner, OwnerPlaceholder))
    ensures !Contains(config.codeOwner, OwnerPlaceholder) ==>
      !Contains(ExpectedHeader(config, currentYear), OwnerPlaceholder)
  {
    var owner := config.codeOwner;
    var withOwner := ExpectedHeader(Config(false, owner), currentYear);
    OwnerInHeader(owner, currentYear);
    if config.forceCurrentYear && Contains(ExpectedHeader(config, currentYear), OwnerPlaceholder) {
      assert Disjoint(currentYear, OwnerPlaceholder);
      ReplaceAddsNoMatch(withOwner, YearPlaceholder, currentYear, OwnerPlaceholder);
    }
  }

  /** The header with the owner written in holds `OWNER` exactly when the owner does. */
  lemma OwnerInHeader(owner: string, currentYear: string)
    ensures Contains(ExpectedHeader(Config(false, owner), currentYear), OwnerPlaceholder)
        <==> Contains(owner, OwnerPlaceholder)
  {
    HeaderWithOwner(owner, currentYear);
    LeadLacksInitials();
    TailLacksInitials();
    var lead := CopyrightLead() + YearPlaceholder + " ";
    var tail := HeaderTail();
    assert 'O' !in YearPlaceholder + " ";
    if Contains(lead + owner + tail, OwnerPlaceholder) {
      ContainsSplit(lead + owner, tail, OwnerPlaceholder);
      if Contains(tail, OwnerPlaceholder) {
        ContainsFirstChar(tail, OwnerPlaceholder);
      }
      ContainsSkipsPrefix(lead, owner, OwnerPlaceholder);
    }
    if Contains(owner, OwnerPlaceholder) {
      ContainsExtends(lead, owner, OwnerPlaceholder);
      ContainsExtendsRight(lead + owner, tail, OwnerPlaceholder);
    }
  }

  /** With a forced year, no year placeholder is left and the year stands in the copyright
      line. */
  lemma ForcedYearReplacesPlaceholder(codeOwner: string, currentYear: string)
    requires IsYear(currentYear)
    ensures !Contains(ExpectedHeader(Config(true, codeOwner), currentYear), YearPlaceholder)
    ensures Contains(ExpectedHeader(Config(true, codeOwner), currentYear), currentYear)
  {
    var withOwner := ExpectedHeader(Config(false, codeOwner), currentYear);
    assert Disjoint(currentYear, YearPlaceholder);
    ReplaceLeavesNoMatch(withOwner, YearPlaceholder, currentYear);
    HeaderWithCurrentYear(codeOwner, currentYear);
    var lead := CopyrightLead();
    var owner := ReplaceAll(codeOwner, YearPlaceholder, currentYear);
    ContainsAtEnd(lead, currentYear);
    ContainsExtendsRight(lead + currentYear, " ", currentYear);
    ContainsExtendsRight(lead + currentYear + " ", owner, currentYear);
    ContainsExtendsRight(lead + currentYear + " " + owner, HeaderTail(), currentYear);
  }
}
