/**
 * The replies the bot assembles for Telegram: the answer to a tax query with
 * its sections, links, confidence line and disclaimer; the confidence emoji;
 * and the message sent when a quota is exhausted. The percentage rendering
 * of the confidence (a float format) is a parameter.
 */
module ReplyFormat {
  import opened Text
  import opened TelegramText
  import opened LimiterSpec

  datatype Option<T> = None | Some(value: T)

  /**
   * The fields `format_tax_response` reads; `None` is a missing key. The
   * list fields default to the empty list, so a missing list is `[]`.
   */
  datatype TaxResponseData = TaxResponseData(
    answer: Option<string>,
    confidence: Option<real>,
    relevantSections: seq<string>,
    officialLinks: seq<string>)

  const TaxHeader: string := "\U{1F4B0} TAX INFORMATION\n\n"
  const DefaultAnswer: string := "No answer available"
  const AnswerLimit: nat := 3500
  const TruncationNote: string := "... (truncated for length)"
  const SectionsHeader: string := "\U{1F4CB} RELEVANT SECTIONS:\n"
  const LinksHeader: string := "\U{1F517} OFFICIAL RESOURCES:\n"
  const Bullet: string := "\U{2022} "
  const SectionLimit: nat := 100
  const SectionsShown: nat := 3
  const LinksShown: nat := 2
  const ConfidenceLabel: string := " CONFIDENCE: "
  const ShortDisclaimer: string := "\U{26A0}\U{FE0F} General information only. Consult a qualified tax advisor for personalized advice."
  const ReplyLimit: nat := 4000
  const ReplyKeep: nat := 3900
  const CutMarker: string := "...\n\n"

  // ----- Confidence -----

  const Green: string := "\U{1F7E2}"
  const Yellow: string := "\U{1F7E1}"
  const Orange: string := "\U{1F7E0}"
  const Red: string := "\U{1F534}"

  /** `_get_confidence_emoji`. */
  function ConfidenceEmoji(confidence: real): string {
    if confidence >= 0.9 then Green
    else if confidence >= 0.7 then Yellow
    else if confidence >= 0.5 then Orange
    else Red
  }

  /** The emoji ordered from red (0) to green (3). */
  function EmojiRank(e: string): int {
    if e == Green then 3 else if e == Yellow then 2 else if e == Orange then 1 else 0
  }

  /** How many of the thresholds 0.5, 0.7 and 0.9 the confidence reaches. */
  function ThresholdsReached(confidence: real): (n: nat)
    ensures n <= 3
  {
    (if confidence >= 0.5 then 1 else 0)
    + (if confidence >= 0.7 then 1 else 0)
    + (if confidence >= 0.9 then 1 else 0)
  }

  /** The four emoji are distinct. */
  lemma EmojiDistinct()
    ensures Green != Yellow && Green != Orange && Green != Red
    ensures Yellow != Orange && Yellow != Red && Orange != Red
  {
    assert Green[0] != Yellow[0] && Green[0] != Orange[0] && Green[0] != Red[0];
    assert Yellow[0] != Orange[0] && Yellow[0] != Red[0] && Orange[0] != Red[0];
  }

  /** The emoji tells exactly how many thresholds the confidence reaches. */
  lemma ConfidenceEmojiBands(confidence: real)
    ensures EmojiRank(ConfidenceEmoji(confidence)) == ThresholdsReached(confidence)
  {
    EmojiDistinct();
  }

  /** A higher confidence never gets a lower emoji. */
  lemma ConfidenceEmojiMonotone(c1: real, c2: real)
    requires c1 <= c2
    ensures EmojiRank(ConfidenceEmoji(c1)) <= EmojiRank(ConfidenceEmoji(c2))
  {
    ConfidenceEmojiBands(c1);
    ConfidenceEmojiBands(c2);
  }

  // ----- The tax reply -----

  /** Python's `s[:n]`. */
  function Take<T>(s: seq<T>, n: nat): (r: seq<T>)
    ensures |r| == Min(|s|, n) && r == s[..|r|]
  {
    if |s| <= n then s else s[..n]
  }

  /** The answer cut to 3500 characters, with a note when it was cut. */
  function ClipAnswer(a: string): string {
    if |a| > AnswerLimit then a[..AnswerLimit] + TruncationNote else a
  }

  /** A cleaned section cut to 100 characters, with `...` when it was cut. */
  function ClipSection(s: string): string {
    if |s| > SectionLimit then s[..SectionLimit] + "..." else s
  }

  /** The bullet text of one relevant section. */
  function SectionEntry(section: string): string {
    ClipSection(CleanForTelegram(section))
  }

  /** The bullet texts of the sections shown: the first three, cleaned and clipped. */
  function SectionEntries(sections: seq<string>): (es: seq<string>)
    ensures |es| == Min(|sections|, SectionsShown)
    ensures forall i :: 0 <= i < |es| ==> es[i] == SectionEntry(sections[i])
  {
    var shown := Take(sections, SectionsShown);
    seq(|shown|, i requires 0 <= i < |shown| => SectionEntry(shown[i]))
  }

  /** One bullet line per entry, in order. */
  function Bullets(es: seq<string>): string
    decreases |es|
  {
    if es == [] then [] else Bullets(es[..|es| - 1]) + Bullet + es[|es| - 1] + "\n"
  }

  /** The sections block: absent for an empty list. */
  function SectionsBlock(sections: seq<string>): string {
    if sections == [] then [] else SectionsHeader + Bullets(SectionEntries(sections)) + "\n"
  }

  /** The links block: absent for an empty list; the first two links, verbatim. */
  function LinksBlock(links: seq<string>): string {
    if links == [] then [] else LinksHeader + Bullets(Take(links, LinksShown)) + "\n"
  }

  function AnswerText(data: TaxResponseData): string {
    if data.answer.Some? then data.answer.value else DefaultAnswer
  }

  function Confidence(data: TaxResponseData): real {
    if data.confidence.Some? then data.confidence.value else 0.0
  }

  /** The cleaned answer, cut to length. */
  function AnswerOf(data: TaxResponseData): string {
    ClipAnswer(CleanForTelegram(AnswerText(data)))
  }

  /** The emoji, the label and the rendered percentage of the confidence. */
  function ConfidenceLine(c: real, percent: real -> string): string {
    ConfidenceEmoji(c) + ConfidenceLabel + percent(c) + "\n\n"
  }

  /** Everything between the header and the disclaimer. */
  function Middle(answer: string, sections: string, links: string, line: string): string {
    answer + "\n\n" + sections + links + line
  }

  function MiddleOf(data: TaxResponseData, percent: real -> string): string {
    Middle(AnswerOf(data), SectionsBlock(data.relevantSections), LinksBlock(data.officialLinks),
      ConfidenceLine(Confidence(data), percent))
  }

  /** The reply before the final length check. */
  function Body(data: TaxResponseData, percent: real -> string): string {
    TaxHeader + MiddleOf(data, percent) + ShortDisclaimer
  }

  /** The final length check: a body over 4000 characters keeps 3900 and gets the disclaimer again. */
  function Fit(body: string): string {
    if |body| > ReplyLimit then body[..ReplyKeep] + CutMarker + ShortDisclaimer else body
  }

  /** `format_tax_response`. */
  function TaxReply(data: TaxResponseData, percent: real -> string): string {
    Fit(Body(data, percent))
  }

  /** The bullets of the first three sections, each cleaned and clipped, appended to `formatted`. */
  method AppendSections(formatted: string, sections: seq<string>) returns (r: string)
    ensures r == formatted + SectionsBlock(sections)
  {
    r := formatted;
    if |sections| > 0 {
      r := r + SectionsHeader;
      var shown := Take(sections, SectionsShown);
      ghost var es := SectionEntries(sections);
      ghost var start := r;
      for i := 0 to |shown|
        invariant r == start + Bullets(es[..i])
      {
        var clean := CleanTextForTelegram(shown[i]);
        if |clean| > SectionLimit {
          clean := clean[..SectionLimit] + "...";
        }
        BulletsSnoc(es, i);
        Regroup4(start, Bullets(es[..i]), Bullet, clean, "\n");
        r := r + Bullet + clean + "\n";
      }
      assert es[..|shown|] == es;
      Regroup3(formatted, SectionsHeader, Bullets(es), "\n");
      r := r + "\n";
    }
  }

  /** The bullets of the first two links, verbatim, appended to `formatted`. */
  method AppendLinks(formatted: string, links: seq<string>) returns (r: string)
    ensures r == formatted + LinksBlock(links)
  {
    r := formatted;
    if |links| > 0 {
      r := r + LinksHeader;
      var shown := Take(links, LinksShown);
      ghost var start := r;
      for i := 0 to |shown|
        invariant r == start + Bullets(shown[..i])
      {
        BulletsSnoc(shown, i);
        Regroup4(start, Bullets(shown[..i]), Bullet, shown[i], "\n");
        r := r + Bullet + shown[i] + "\n";
      }
      assert shown[..|shown|] == shown;
      Regroup3(formatted, LinksHeader, Bullets(shown), "\n");
      r := r + "\n";
    }
  }

  /** The bullets of a longer prefix: one more line at the end. */
  lemma BulletsSnoc(es: seq<string>, i: nat)
    requires i < |es|
    ensures Bullets(es[..i + 1]) == Bullets(es[..i]) + Bullet + es[i] + "\n"
  {
    assert es[..i + 1][..i] == es[..i];
  }

  /** Helpers: appending pieces one by one appends their concatenation. */
  lemma Regroup2(start: string, a: string, b: string)
    ensures start + a + b == start + (a + b)
  {
  }

  lemma Regroup3(start: string, a: string, b: string, c: string)
    ensures start + a + b + c == start + (a + b + c)
  {
  }

  lemma Regroup4(start: string, a: string, b: string, c: string, d: string)
    ensures start + a + b + c + d == start + (a + b + c + d)
  {
  }

  lemma Regroup5(start: string, a: string, b: string, c: string, d: string, e: string)
    ensures start + a + b + c + d + e == start + (a + b + c + d + e)
  {
  }

  /** The answer text cleaned and cut to 3500 characters. */
  method CleanAnswer(text: string) returns (answer: string)
    ensures answer == ClipAnswer(CleanForTelegram(text))
  {
    answer := CleanTextForTelegram(text);
    if |answer| > AnswerLimit {
      answer := answer[..AnswerLimit] + TruncationNote;
    }
  }

  /** `format_tax_response`, assembled by appending as the source does. */
  method FormatTaxResponse(data: TaxResponseData, percent: real -> string) returns (reply: string)
    ensures reply == TaxReply(data, percent)
  {
    var answer := if data.answer.Some? then data.answer.value else DefaultAnswer;
    answer := CleanAnswer(answer);
    assert answer == AnswerOf(data);
    var confidence := if data.confidence.Some? then data.confidence.value else 0.0;
    assert confidence == Confidence(data);
    ghost var sections := SectionsBlock(data.relevantSections);
    ghost var links := LinksBlock(data.officialLinks);
    ghost var line := ConfidenceLine(confidence, percent);
    var formatted := TaxHeader;
    formatted := formatted + answer + "\n\n";
    formatted := AppendSections(formatted, data.relevantSections);
    formatted := AppendLinks(formatted, data.officialLinks);
    ghost var afterLinks := formatted;
    var emoji := ConfidenceEmoji(confidence);
    formatted := formatted + emoji + ConfidenceLabel + percent(confidence) + "\n\n";
    Regroup4(afterLinks, emoji, ConfidenceLabel, percent(confidence), "\n\n");
    Regroup5(TaxHeader, answer, "\n\n", sections, links, line);
    assert formatted == TaxHeader + Middle(answer, sections, links, line);
    formatted := formatted + ShortDisclaimer;
    assert formatted == Body(data, percent);
    reply := FitToLimit(formatted);
  }

  /** The final length check of `format_tax_response`. */
  method FitToLimit(formatted: string) returns (reply: string)
    ensures reply == Fit(formatted)
  {
    reply := formatted;
    if |reply| > ReplyLimit {
      reply := reply[..ReplyKeep] + CutMarker + ShortDisclaimer;
    }
  }

  /**
   * Whatever lies between header and disclaimer, the fitted reply is at most
   * 4000 characters, ends with the disclaimer, and begins with the header
   * and with the body: all of it when it fits, otherwise its first 3900
   * characters.
   */
  lemma FitShape(middle: string)
    ensures var body := TaxHeader + middle + ShortDisclaimer;
      var r := Fit(body);
      var k := if |body| <= ReplyLimit then |body| else ReplyKeep;
      |r| <= ReplyLimit
      && |ShortDisclaimer| <= |r| && r[|r| - |ShortDisclaimer|..] == ShortDisclaimer
      && k <= |r| && r[..k] == body[..k]
      && |TaxHeader| <= k && r[..|TaxHeader|] == TaxHeader
  {
    var body := TaxHeader + middle + ShortDisclaimer;
    assert |ShortDisclaimer| == 85;
    assert |TaxHeader| == 19;
    if |body| > ReplyLimit {
      var r := (body[..ReplyKeep] + CutMarker) + ShortDisclaimer;
      assert r[..ReplyKeep] == body[..ReplyKeep];
      assert body[..|TaxHeader|] == TaxHeader;
      assert r[..|TaxHeader|] == body[..ReplyKeep][..|TaxHeader|];
    } else {
      assert body[..|TaxHeader|] == TaxHeader;
    }
  }

  /** The reply never exceeds 4000 characters. */
  lemma TaxReplyBounded(data: TaxResponseData, percent: real -> string)
    ensures |TaxReply(data, percent)| <= ReplyLimit
  {
    FitShape(MiddleOf(data, percent));
  }

  /** The reply always ends with the short disclaimer. */
  lemma TaxReplyEndsWithDisclaimer(data: TaxResponseData, percent: real -> string)
    ensures var r := TaxReply(data, percent);
      |ShortDisclaimer| <= |r| && r[|r| - |ShortDisclaimer|..] == ShortDisclaimer
  {
    FitShape(MiddleOf(data, percent));
  }

  /**
   * The reply begins with the body: all of it when it fits, otherwise its
   * first 3900 characters; either way with the header.
   */
  lemma TaxReplyKeepsOpening(data: TaxResponseData, percent: real -> string)
    ensures var body := Body(data, percent);
      var r := TaxReply(data, percent);
      var k := if |body| <= ReplyLimit then |body| else ReplyKeep;
      k <= |r| && r[..k] == body[..k] && |TaxHeader| <= k && r[..|TaxHeader|] == TaxHeader
  {
    FitShape(MiddleOf(data, percent));
  }

  /** A missing answer is reported as "No answer available", which cleaning leaves intact. */
  lemma MissingAnswerReply(data: TaxResponseData, percent: real -> string)
    requires data.answer == None
    ensures var opening := TaxHeader + DefaultAnswer + "\n\n";
      opening <= TaxReply(data, percent)
  {
    DefaultAnswerIsClean();
    assert AnswerOf(data) == DefaultAnswer;
    BodyOpening(DefaultAnswer, SectionsBlock(data.relevantSections), LinksBlock(data.officialLinks),
      ConfidenceLine(Confidence(data), percent));
    PrefixSurvivesFit(TaxHeader + DefaultAnswer + "\n\n", Body(data, percent));
  }

  /** A prefix of the body no longer than 3900 characters is a prefix of the reply. */
  lemma PrefixSurvivesFit(opening: string, body: string)
    requires opening <= body && |opening| <= ReplyKeep
    ensures opening <= Fit(body)
  {
    if |body| > ReplyLimit {
      assert body[..ReplyKeep][..|opening|] == opening;
    }
  }

  /** The body opens with the header, the answer and a blank line. */
  lemma BodyOpening(answer: string, sections: string, links: string, line: string)
    ensures TaxHeader + answer + "\n\n" <= TaxHeader + Middle(answer, sections, links, line) + ShortDisclaimer
  {
    Regroup5(TaxHeader, answer, "\n\n", sections, links, line);
  }

  lemma DefaultAnswerIsClean()
    ensures CleanForTelegram(DefaultAnswer) == DefaultAnswer
  {
    PlainLettersClean(DefaultAnswer);
  }

  /** Letters separated by single spaces pass through cleaning unchanged. */
  lemma PlainLettersClean(s: string)
    requires s != [] && s[0] != ' ' && s[|s| - 1] != ' '
    requires forall i :: 0 <= i < |s| ==> s[i] == ' ' || 'a' <= s[i] <= 'z' || 'A' <= s[i] <= 'Z'
    requires forall i :: 0 <= i < |s| - 1 ==> !(s[i] == ' ' && s[i + 1] == ' ')
    ensures CleanForTelegram(s) == s
  {
    forall i | 0 <= i < |s| ensures s[i] !in Removed + {'~'} + ControlChars {
      ControlCharsIff(s[i]);
    }
    forall i | 0 <= i && i + 2 <= |s| ensures !OccursAt(s, "  ", i) {
      assert s[i..i + 2][0] == s[i] && s[i..i + 2][1] == s[i + 1];
    }
    ContainsIff(s, "  ");
    AvoidsHeadNoOccurrence(s, "\n\n\n");
    CleanPlainText(s);
  }

  /** The answer is cut to 3500 characters plus the note, keeping its opening. */
  lemma ClipAnswerKeepsOpening(a: string)
    ensures var r := ClipAnswer(a);
      var k := Min(|a|, AnswerLimit);
      |r| <= AnswerLimit + |TruncationNote| && k <= |r| && r[..k] == a[..k]
      && (|a| <= AnswerLimit ==> r == a)
  {
  }

  /** A section bullet holds at most 103 characters, with no markup, starting with the cleaned section. */
  lemma SectionEntryShape(section: string)
    ensures var e := SectionEntry(section);
      var c := CleanForTelegram(section);
      var k := Min(|c|, SectionLimit);
      |e| <= SectionLimit + 3 && k <= |e| && e[..k] == c[..k]
      && Avoids(e, Removed)
  {
    CleanRemovesMarkup(section);
    ClipSectionShape(CleanForTelegram(section));
  }

  /** Clipping keeps at most 100 characters of the text and adds no markup. */
  lemma ClipSectionShape(c: string)
    requires Avoids(c, Removed)
    ensures var e := ClipSection(c);
      var k := Min(|c|, SectionLimit);
      |e| <= SectionLimit + 3 && k <= |e| && e[..k] == c[..k]
      && Avoids(e, Removed)
  {
    DotsAvoidRemoved();
    if |c| > SectionLimit {
      assert Avoids(c[..SectionLimit], Removed);
    }
  }

  lemma DotsAvoidRemoved()
    ensures Avoids("...", Removed)
  {
    assert '.' !in Removed;
  }

  /** Each bullet adds its entry and three characters. */
  lemma {:induction false} BulletsLength(es: seq<string>, m: nat)
    requires forall i :: 0 <= i < |es| ==> |es[i]| <= m
    ensures |Bullets(es)| <= |es| * (m + 3)
    decreases |es|
  {
    if es != [] {
      BulletsLength(es[..|es| - 1], m);
      assert |Bullet| == 2;
    }
  }

  /** At most three section bullets of at most 103 characters each. */
  lemma SectionsBlockBounded(sections: seq<string>)
    ensures |SectionEntries(sections)| <= SectionsShown
    ensures |SectionsBlock(sections)| <= |SectionsHeader| + SectionsShown * (SectionLimit + 6) + 1
  {
    var es := SectionEntries(sections);
    forall i | 0 <= i < |es| ensures |es[i]| <= SectionLimit + 3 {
      SectionEntryShape(sections[i]);
    }
    BulletsLength(es, SectionLimit + 3);
  }

  /** The bullet lines of `es`, without their newlines. */
  function BulletLines(es: seq<string>): (ls: seq<string>)
    ensures |ls| == |es|
  {
    seq(|es|, i requires 0 <= i < |es| => Bullet + es[i])
  }

  /** Splitting bullets at newlines gives one line per entry, then the rest. */
  lemma {:induction false} SplitBullets(es: seq<string>, rest: string)
    requires forall i :: 0 <= i < |es| ==> '\n' !in es[i]
    ensures Split(Bullets(es) + rest, '\n') == BulletLines(es) + Split(rest, '\n')
    decreases |es|
  {
    if es == [] {
      assert Bullets(es) + rest == rest;
    } else {
      var init := es[..|es| - 1];
      var last := es[|es| - 1];
      var line := Bullet + last;
      assert '\n' !in Bullet by {
        assert Bullet == [Bullet[0], Bullet[1]] && Bullet[1] == ' ';
      }
      assert Bullets(es) + rest == Bullets(init) + (line + ['\n'] + rest);
      SplitBullets(init, line + ['\n'] + rest);
      SplitPieceThen(line, rest, '\n');
      assert BulletLines(es) == BulletLines(init) + [line];
    }
  }

  const LinksTitle: string := "\U{1F517} OFFICIAL RESOURCES:"

  /**
   * For links without a newline, the links block reads line by line: the
   * title, then one bullet per link for the first two links, verbatim and
   * in order, then the blank line that ends the block.
   */
  lemma LinksBlockLines(links: seq<string>)
    requires forall i :: 0 <= i < |links| ==> '\n' !in links[i]
    ensures links == [] ==> LinksBlock(links) == []
    ensures links != [] ==>
      var k := Min(|links|, LinksShown);
      var lines := Split(LinksBlock(links), '\n');
      && |lines| == k + 3
      && lines[0] == LinksTitle
      && (forall i :: 0 <= i < k ==> lines[i + 1] == Bullet + links[i])
      && lines[k + 1] == [] && lines[k + 2] == []
  {
    if links != [] {
      var shown := Take(links, LinksShown);
      assert LinksHeader == LinksTitle + "\n";
      assert |LinksTitle| == 21;
      assert '\n' !in LinksTitle by {
        forall i | 0 <= i < |LinksTitle| ensures LinksTitle[i] != '\n' {
        }
      }
      assert LinksBlock(links) == LinksTitle + ['\n'] + (Bullets(shown) + "\n");
      SplitPieceThen(LinksTitle, Bullets(shown) + "\n", '\n');
      SplitBullets(shown, "\n");
      assert Split("\n", '\n') == [[], []] by {
        assert "\n"[1..] == [];
      }
    }
  }

  // ----- Quota messages -----

  const QueryLimitMessage: string :=
    "\U{23F0} QUERY LIMIT REACHED\n\nYou've reached the hourly limit for text queries (10 per hour).\n\nWHAT YOU CAN DO:\n\U{2022} Wait for the next hour to reset\n\U{2022} Consider consolidating multiple questions into one\n\U{2022} Use /help for guidance on effective queries\n\nThank you for your understanding! \U{1F64F}"

  const DocumentLimitMessage: string :=
    "\U{1F4C4} DOCUMENT ANALYSIS LIMIT REACHED\n\nYou've reached the daily limit for document analysis (3 per day).\n\nWHAT YOU CAN DO:\n\U{2022} Wait for tomorrow to reset\n\U{2022} Combine multiple documents if possible\n\U{2022} Ask text-based questions about specific tax topics\n\nThank you for your understanding! \U{1F64F}"

  const GenericLimitMessage: string := "\U{23F0} You've reached the usage limit. Please try again later."

  /** `format_rate_limit_response`. */
  function RateLimitMessage(limitType: string): string {
    if limitType == TextQuery then QueryLimitMessage
    else if limitType == DocumentAnalysis then DocumentLimitMessage
    else GenericLimitMessage
  }

  /**
   * Each type of the policy table has its own message, and exactly the
   * types outside the table get the generic one.
   */
  lemma RateLimitMessageCases(limitType: string)
    ensures RateLimitMessage(limitType) == GenericLimitMessage <==> limitType !in Limits
    ensures RateLimitMessage(TextQuery) != RateLimitMessage(DocumentAnalysis)
  {
    PolicyOrderListsLimits();
    assert |QueryLimitMessage| != |GenericLimitMessage|;
    assert |DocumentLimitMessage| != |GenericLimitMessage|;
    assert |QueryLimitMessage| != |DocumentLimitMessage|;
  }
}
