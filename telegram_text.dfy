/**
 * `ResponseFormatter._clean_text_for_telegram`: the normaliser every piece
 * of model-written text passes through before it is sent as a plain-text
 * Telegram message.  It deletes markdown markers and bracket characters,
 * collapses runs of spaces and of newlines, drops control characters and
 * strips the ends.
 */
module TelegramText {
  import opened Text

  /** The characters the cleaner guarantees to remove. */
  const Removed: set<char> := {'*', '_', '`', '[', ']', '{', '}', '|', '\\', '<', '>'}

  /** The bracket-like characters the cleaner visits, in its order; it skips the parentheses. */
  const ProblematicChars: seq<char> := ['[', ']', '(', ')', '{', '}', '|', '\\', '<', '>']

  predicate IsParen(c: char) {
    c == '(' || c == ')'
  }

  /** The markdown deletions: bold, italic, underscore and code markers, then strikethrough. */
  function StripMarkdown(s: string): string {
    var a := ReplaceAll(ReplaceAll(ReplaceAll(ReplaceAll(s, "**", ""), "*", ""), "_", ""), "`", "");
    ReplaceAll(ReplaceAll(ReplaceAll(a, "__", ""), "~~", ""), "```", "")
  }

  /** Delete each character of `chars` in turn, skipping the parentheses. */
  function DropChars(s: string, chars: seq<char>): string
    decreases |chars|
  {
    if chars == [] then s
    else DropChars(if IsParen(chars[0]) then s else ReplaceAll(s, [chars[0]], []), chars[1..])
  }

  /** The characters `DropChars` deletes. */
  function Dropped(chars: seq<char>): set<char>
    decreases |chars|
  {
    if chars == [] then {} else (if IsParen(chars[0]) then {} else {chars[0]}) + Dropped(chars[1..])
  }

  /** The quote "normalisation": each quote character is replaced by itself. */
  function NormalizeQuotes(s: string): string {
    ReplaceAll(ReplaceAll(ReplaceAll(ReplaceAll(s, "\"", "\""), "\"", "\""), "'", "'"), "'", "'")
  }

  /** Characters below 32 other than tab, newline and carriage return. */
  const ControlChars: set<char> := set n: int | 0 <= n < 32 && n != 9 && n != 10 && n != 13 :: n as char

  predicate Printable(c: char) {
    c as int >= 32 || c == '\n' || c == '\r' || c == '\t'
  }

  lemma ControlCharsIff(c: char)
    ensures c in ControlChars <==> !Printable(c)
  {
    if !Printable(c) {
      assert (c as int) as char == c;
    }
  }

  /** `''.join(c for c in s if ord(c) >= 32 or c in '\n\r\t')`. */
  function KeepPrintable(s: string): (r: string)
    ensures |r| <= |s|
    ensures forall i :: 0 <= i < |r| ==> Printable(r[i])
    decreases |s|
  {
    if s == [] then []
    else (if Printable(s[0]) then [s[0]] else []) + KeepPrintable(s[1..])
  }

  /** The deletions: markdown markers, then the bracket characters. */
  function Deleted(text: string): string {
    DropChars(StripMarkdown(text), ProblematicChars)
  }

  /** The quote step, then the loops collapsing runs of spaces and of newlines. */
  function Spaced(s: string): string {
    CollapseRuns(CollapseRuns(NormalizeQuotes(s), "  ", " "), "\n\n\n", "\n\n")
  }

  /** The stages before the filter. */
  function Collapsed(text: string): string {
    Spaced(Deleted(text))
  }

  /** The whole cleaner: the collapsed text, filtered and stripped. */
  function CleanForTelegram(text: string): string {
    if text == [] then [] else Strip(KeepPrintable(Collapsed(text)))
  }

  /** The loop over the bracket characters: each one other than the parentheses is deleted. */
  method DropProblematic(s: string) returns (r: string)
    ensures r == DropChars(s, ProblematicChars)
  {
    r := s;
    for i := 0 to |ProblematicChars|
      invariant DropChars(r, ProblematicChars[i..]) == DropChars(s, ProblematicChars)
    {
      assert ProblematicChars[i..][1..] == ProblematicChars[i + 1..];
      var c := ProblematicChars[i];
      if IsParen(c) {
        continue;
      }
      r := ReplaceAll(r, [c], []);
    }
    assert ProblematicChars[|ProblematicChars|..] == [];
  }

  /** The cleaner as the source runs it: the deletions, then the collapse loops, the filter and the strip. */
  method CleanTextForTelegram(text: string) returns (cleaned: string)
    ensures cleaned == CleanForTelegram(text)
  {
    if text == [] {
      return [];
    }
    var deleted := DropProblematic(StripMarkdown(text));
    cleaned := NormalizeQuotes(deleted);
    cleaned := Collapse(cleaned, "  ", " ");
    cleaned := Collapse(cleaned, "\n\n\n", "\n\n");
    assert cleaned == Spaced(deleted);
    cleaned := Strip(KeepPrintable(cleaned));
  }

  // ----- the stages, one at a time -----

  lemma StripMarkdownAvoids(s: string, cs: set<char>)
    requires Avoids(s, cs)
    ensures Avoids(StripMarkdown(s), cs + {'*', '_', '`'})
  {
    var a1 := ReplaceAll(s, "**", "");
    ReplaceAllAvoids(s, "**", "", cs);
    DeleteCharAvoids(a1, '*', cs);
    var a2 := ReplaceAll(a1, "*", "");
    DeleteCharAvoids(a2, '_', cs + {'*'});
    var a3 := ReplaceAll(a2, "_", "");
    DeleteCharAvoids(a3, '`', cs + {'*', '_'});
    var a4 := ReplaceAll(a3, "`", "");
    var m := cs + {'*', '_', '`'};
    assert cs + {'*'} + {'_'} + {'`'} == m;
    ReplaceAllAvoids(a4, "__", "", m);
    var a5 := ReplaceAll(a4, "__", "");
    ReplaceAllAvoids(a5, "~~", "", m);
    ReplaceAllAvoids(ReplaceAll(a5, "~~", ""), "```", "", m);
  }

  lemma StripMarkdownKeepsCount(s: string, c: char)
    requires c !in "*_`~"
    ensures multiset(StripMarkdown(s))[c] == multiset(s)[c]
  {
    ReplaceAllKeepsCount(s, "**", "", c);
    var a1 := ReplaceAll(s, "**", "");
    ReplaceAllKeepsCount(a1, "*", "", c);
    var a2 := ReplaceAll(a1, "*", "");
    ReplaceAllKeepsCount(a2, "_", "", c);
    var a3 := ReplaceAll(a2, "_", "");
    ReplaceAllKeepsCount(a3, "`", "", c);
    var a4 := ReplaceAll(a3, "`", "");
    ReplaceAllKeepsCount(a4, "__", "", c);
    var a5 := ReplaceAll(a4, "__", "");
    ReplaceAllKeepsCount(a5, "~~", "", c);
    ReplaceAllKeepsCount(ReplaceAll(a5, "~~", ""), "```", "", c);
  }

  lemma {:induction false} DropCharsAvoids(s: string, chars: seq<char>, cs: set<char>)
    requires Avoids(s, cs)
    ensures Avoids(DropChars(s, chars), cs + Dropped(chars))
    decreases |chars|
  {
    if chars != [] {
      var c := chars[0];
      if IsParen(c) {
        DropCharsAvoids(s, chars[1..], cs);
      } else {
        DeleteCharAvoids(s, c, cs);
        DropCharsAvoids(ReplaceAll(s, [c], []), chars[1..], cs + {c});
        assert cs + {c} + Dropped(chars[1..]) == cs + Dropped(chars);
      }
    }
  }

  lemma {:induction false} DropCharsKeepsParens(s: string, chars: seq<char>, c: char)
    requires IsParen(c)
    ensures multiset(DropChars(s, chars))[c] == multiset(s)[c]
    decreases |chars|
  {
    if chars != [] {
      if IsParen(chars[0]) {
        DropCharsKeepsParens(s, chars[1..], c);
      } else {
        ReplaceAllKeepsCount(s, [chars[0]], [], c);
        DropCharsKeepsParens(ReplaceAll(s, [chars[0]], []), chars[1..], c);
      }
    }
  }

  lemma {:induction false} DropCharsKeepsAvoid(s: string, chars: seq<char>, cs: set<char>)
    requires Avoids(s, cs)
    ensures Avoids(DropChars(s, chars), cs)
    decreases |chars|
  {
    if chars != [] {
      if IsParen(chars[0]) {
        DropCharsKeepsAvoid(s, chars[1..], cs);
      } else {
        ReplaceAllAvoids(s, [chars[0]], [], cs);
        DropCharsKeepsAvoid(ReplaceAll(s, [chars[0]], []), chars[1..], cs);
      }
    }
  }

  /** `Dropped` holds exactly the listed characters other than the parentheses. */
  lemma {:induction false} DroppedIff(chars: seq<char>, c: char)
    ensures c in Dropped(chars) <==> c in chars && !IsParen(c)
    decreases |chars|
  {
    if chars != [] {
      DroppedIff(chars[1..], c);
      assert chars == [chars[0]] + chars[1..];
    }
  }

  /** The visited characters other than the parentheses are exactly the bracket characters removed. */
  lemma DroppedProblematic()
    ensures Dropped(ProblematicChars) == {'[', ']', '{', '}', '|', '\\', '<', '>'}
  {
    forall c ensures c in Dropped(ProblematicChars) <==> c in {'[', ']', '{', '}', '|', '\\', '<', '>'} {
      DroppedIff(ProblematicChars, c);
      ProblematicMembers(c);
    }
  }

  lemma ProblematicMembers(c: char)
    ensures c in ProblematicChars <==> c in {'[', ']', '(', ')', '{', '}', '|', '\\', '<', '>'}
  {
  }

  /** The quote step is the identity. */
  lemma NormalizeQuotesIdentity(s: string)
    ensures NormalizeQuotes(s) == s
  {
    ReplaceAllSelf(s, "\"");
    ReplaceAllSelf(s, "'");
  }

  lemma {:induction false} KeepPrintableAvoids(s: string, cs: set<char>)
    requires Avoids(s, cs)
    ensures Avoids(KeepPrintable(s), cs)
    decreases |s|
  {
    if s != [] {
      KeepPrintableAvoids(s[1..], cs);
    }
  }

  lemma {:induction false} KeepPrintableKeepsCount(s: string, c: char)
    requires Printable(c)
    ensures multiset(KeepPrintable(s))[c] == multiset(s)[c]
    decreases |s|
  {
    if s != [] {
      KeepPrintableKeepsCount(s[1..], c);
      assert s == [s[0]] + s[1..];
    }
  }

  /** The filter leaves text without control characters alone. */
  lemma {:induction false} KeepPrintableIdentity(s: string)
    requires Avoids(s, ControlChars)
    ensures KeepPrintable(s) == s
    decreases |s|
  {
    if s != [] {
      ControlCharsIff(s[0]);
      KeepPrintableIdentity(s[1..]);
      assert s == [s[0]] + s[1..];
    }
  }

  /** A helper: the literals the cleaning stages use hold no control character. */
  lemma ControlFreeLiterals()
    ensures Avoids(" ", ControlChars) && Avoids("\n\n", ControlChars)
    ensures Avoids("\"", ControlChars) && Avoids("'", ControlChars)
  {
    ControlCharsIff(' ');
    ControlCharsIff('\n');
    ControlCharsIff('"');
    ControlCharsIff('\'');
  }

  // ----- what the cleaner promises -----

  /** Empty input gives empty output. */
  lemma CleanEmpty()
    ensures CleanForTelegram("") == ""
  {
  }

  /** The deletions add nothing `text` avoids and remove every character of `Removed`. */
  lemma DeletedAvoids(text: string, cs: set<char>)
    requires Avoids(text, cs)
    ensures Avoids(Deleted(text), cs + Removed)
  {
    StripMarkdownAvoids(text, cs);
    DropCharsAvoids(StripMarkdown(text), ProblematicChars, cs + {'*', '_', '`'});
    RemovedByParts(cs);
  }

  /** The markers and the visited characters other than parentheses make up `Removed`. */
  lemma RemovedByParts(cs: set<char>)
    ensures cs + {'*', '_', '`'} + Dropped(ProblematicChars) == cs + Removed
  {
    DroppedProblematic();
  }

  /** The quote and collapse steps add nothing but spaces and newlines. */
  lemma SpacedAvoids(s: string, cs: set<char>)
    requires Avoids(s, cs) && ' ' !in cs && '\n' !in cs
    ensures Avoids(Spaced(s), cs)
  {
    NormalizeQuotesIdentity(s);
    assert Avoids(" ", cs) && Avoids("\n\n", cs);
    CollapseRunsAvoids(s, "  ", " ", cs);
    CollapseRunsAvoids(CollapseRuns(s, "  ", " "), "\n\n\n", "\n\n", cs);
  }

  /**
   * The stages before the filter add nothing `text` avoids (when spaces and
   * newlines are allowed) and delete every character of `Removed`.
   */
  lemma CollapsedAvoids(text: string, cs: set<char>)
    requires Avoids(text, cs) && ' ' !in cs && '\n' !in cs
    ensures Avoids(Collapsed(text), cs + Removed)
  {
    DeletedAvoids(text, cs);
    LayoutKept(cs);
    SpacedAvoids(Deleted(text), cs + Removed);
  }

  /** A helper: spaces and newlines are not among the removed characters. */
  lemma LayoutKept(cs: set<char>)
    requires ' ' !in cs && '\n' !in cs
    ensures ' ' !in cs + Removed && '\n' !in cs + Removed
  {
  }

  /** A helper for set arithmetic on the removed characters. */
  lemma NothingPlusRemoved()
    ensures {} + Removed == Removed
  {
  }

  /** No markdown marker and no bracket character other than parentheses survives. */
  lemma CleanRemovesMarkup(text: string)
    ensures Avoids(CleanForTelegram(text), Removed)
  {
    if text != [] {
      CollapsedAvoids(text, {});
      NothingPlusRemoved();
      var lined := Collapsed(text);
      KeepPrintableAvoids(lined, Removed);
      StripAvoids(KeepPrintable(lined), Removed);
    }
  }

  /** A parenthesis is printable, not whitespace, and not a marker character. */
  lemma ParenFacts(c: char)
    requires IsParen(c)
    ensures Printable(c) && !IsSpace(c) && c != ' ' && c != '\n' && c !in "*_`~"
  {
  }

  /** The deletions keep every parenthesis. */
  lemma DeletedKeepsParens(text: string, c: char)
    requires IsParen(c)
    ensures multiset(Deleted(text))[c] == multiset(text)[c]
  {
    ParenFacts(c);
    StripMarkdownKeepsCount(text, c);
    DropCharsKeepsParens(StripMarkdown(text), ProblematicChars, c);
  }

  /** The quote and collapse steps keep every character other than spaces and newlines. */
  lemma SpacedKeepsCount(s: string, c: char)
    requires c != ' ' && c != '\n'
    ensures multiset(Spaced(s))[c] == multiset(s)[c]
  {
    NormalizeQuotesIdentity(s);
    LayoutFree(c);
    CollapseRunsKeepsCount(s, "  ", " ", c);
    CollapseRunsKeepsCount(CollapseRuns(s, "  ", " "), "\n\n\n", "\n\n", c);
  }

  lemma LayoutFree(c: char)
    requires c != ' ' && c != '\n'
    ensures c !in "  " && c !in " " && c !in "\n\n\n" && c !in "\n\n"
  {
  }

  /** The stages before the filter keep every parenthesis. */
  lemma CollapsedKeepsParens(text: string, c: char)
    requires IsParen(c)
    ensures multiset(Collapsed(text))[c] == multiset(text)[c]
  {
    DeletedKeepsParens(text, c);
    ParenFacts(c);
    SpacedKeepsCount(Deleted(text), c);
  }

  /** Parentheses are kept: the output has exactly as many of each as the input. */
  lemma CleanKeepsParens(text: string, c: char)
    requires IsParen(c)
    ensures multiset(CleanForTelegram(text))[c] == multiset(text)[c]
  {
    if text != [] {
      CollapsedKeepsParens(text, c);
      var lined := Collapsed(text);
      ParenFacts(c);
      KeepPrintableKeepsCount(lined, c);
      StripKeepsCount(KeepPrintable(lined), c);
      assert CleanForTelegram(text) == Strip(KeepPrintable(lined));
    }
  }

  /** Text made of printable characters holds no control character. */
  lemma PrintableAvoidsControl(s: string)
    requires forall i :: 0 <= i < |s| ==> Printable(s[i])
    ensures Avoids(s, ControlChars)
  {
    forall i | 0 <= i < |s| ensures s[i] !in ControlChars {
      ControlCharsIff(s[i]);
    }
  }

  /** The output holds no control character and has no whitespace at either end. */
  lemma CleanIsPrintableAndTrimmed(text: string)
    ensures Avoids(CleanForTelegram(text), ControlChars)
    ensures Trimmed(CleanForTelegram(text))
  {
    if text != [] {
      var k := KeepPrintable(Collapsed(text));
      PrintableAvoidsControl(k);
      StripAvoids(k, ControlChars);
      assert CleanForTelegram(text) == Strip(k);
    }
  }

  /** After the collapse steps there are neither two spaces nor three newlines in a row. */
  lemma SpacedCollapses(s: string)
    ensures !Contains(Spaced(s), "  ") && !Contains(Spaced(s), "\n\n\n")
  {
    CollapseRunsNoPair(CollapseRuns(NormalizeQuotes(s), "  ", " "), "\n\n\n", "\n\n", ' ');
  }

  /**
   * On input without control characters the output has neither two spaces
   * in a row nor three newlines in a row.
   */
  lemma CleanCollapsesRuns(text: string)
    requires Avoids(text, ControlChars)
    ensures !Contains(CleanForTelegram(text), "  ")
    ensures !Contains(CleanForTelegram(text), "\n\n\n")
  {
    if text != [] {
      var lined := Collapsed(text);
      SpacedCollapses(Deleted(text));
      ControlFreeLiterals();
      CollapsedAvoids(text, ControlChars);
      KeepPrintableIdentity(lined);
      StripKeepsAbsence(lined, "  ");
      StripKeepsAbsence(lined, "\n\n\n");
    }
  }

  /** Text without markers, brackets or tildes passes the deletions unchanged. */
  lemma DeletedIdentity(s: string)
    requires Avoids(s, Removed + {'~'})
    ensures Deleted(s) == s
  {
    assert ReplaceAll(s, "**", "") == s by { AvoidsHeadNoOccurrence(s, "**"); ReplaceAllAbsent(s, "**", ""); }
    assert ReplaceAll(s, "*", "") == s by { AvoidsHeadNoOccurrence(s, "*"); ReplaceAllAbsent(s, "*", ""); }
    assert ReplaceAll(s, "_", "") == s by { AvoidsHeadNoOccurrence(s, "_"); ReplaceAllAbsent(s, "_", ""); }
    assert ReplaceAll(s, "`", "") == s by { AvoidsHeadNoOccurrence(s, "`"); ReplaceAllAbsent(s, "`", ""); }
    assert ReplaceAll(s, "__", "") == s by { AvoidsHeadNoOccurrence(s, "__"); ReplaceAllAbsent(s, "__", ""); }
    assert ReplaceAll(s, "~~", "") == s by { AvoidsHeadNoOccurrence(s, "~~"); ReplaceAllAbsent(s, "~~", ""); }
    assert ReplaceAll(s, "```", "") == s by { AvoidsHeadNoOccurrence(s, "```"); ReplaceAllAbsent(s, "```", ""); }
    assert StripMarkdown(s) == s;
    assert Avoids(s, Dropped(ProblematicChars)) by { DroppedProblematic(); }
    DropCharsUnchanged(s, ProblematicChars);
  }

  /** Text without double spaces or triple newlines passes the collapse steps unchanged. */
  lemma SpacedIdentity(s: string)
    requires !Contains(s, "  ") && !Contains(s, "\n\n\n")
    ensures Spaced(s) == s
  {
    NormalizeQuotesIdentity(s);
  }

  /**
   * Text without markers, brackets, tildes, double spaces or triple
   * newlines passes the stages before the filter unchanged.
   */
  lemma CollapsedIdentity(s: string)
    requires Avoids(s, Removed + {'~'})
    requires !Contains(s, "  ") && !Contains(s, "\n\n\n")
    ensures Collapsed(s) == s
  {
    DeletedIdentity(s);
    SpacedIdentity(s);
  }

  /** Plain, trimmed text without control characters is its own cleaning. */
  lemma CleanPlainText(s: string)
    requires Avoids(s, Removed + {'~'} + ControlChars)
    requires !Contains(s, "  ") && !Contains(s, "\n\n\n")
    requires Trimmed(s)
    ensures CleanForTelegram(s) == s
  {
    if s != [] {
      CollapsedIdentity(s);
      KeepPrintableIdentity(s);
      StripTrimmed(s);
    }
  }

  /**
   * The control filter runs after the collapse loops, so a control character
   * between two spaces leaves a double space behind: two words separated by
   * " \U{1} " come out separated by two spaces.
   */
  lemma FilterAfterCollapse(x: char, y: char)
    requires 'a' <= x <= 'z' && 'a' <= y <= 'z'
    ensures CleanForTelegram([x, ' ', '\U{1}', ' ', y]) == [x, ' ', ' ', y]
  {
    var s := [x, ' ', '\U{1}', ' ', y];
    SampleIsPlain(x, y);
    CollapsedIdentity(s);
    FilterSample(x, y);
    StripTrimmed([x, ' ', ' ', y]);
  }

  /**
   * The markdown deletions run before the bracket deletions, so a
   * strikethrough marker can form again once a bracket between two tildes
   * is gone: `"~[~"` cleans to `"~~"`.
   */
  lemma StrikethroughReforms()
    ensures CleanForTelegram("~[~") == "~~"
  {
    StrikeSampleDeleted();
    ControlCharsIff('~');
    PairIsPlain('~');
    CleanOfPlainDeletion("~[~", "~~");
  }

  /** Two copies of a visible character that is not a space form plain, trimmed text. */
  lemma PairIsPlain(c: char)
    requires c !in ControlChars && !IsSpace(c) && c != '\n'
    ensures Avoids([c, c], ControlChars) && !Contains([c, c], "  ") && !Contains([c, c], "\n\n\n")
    ensures Trimmed([c, c])
  {
    AvoidsHeadNoOccurrence([c, c], "  ");
    AvoidsHeadNoOccurrence([c, c], "\n\n\n");
  }

  /** Text whose deletions leave plain, trimmed text cleans to that text. */
  lemma CleanOfPlainDeletion(text: string, t: string)
    requires text != [] && Deleted(text) == t
    requires Avoids(t, ControlChars) && !Contains(t, "  ") && !Contains(t, "\n\n\n") && Trimmed(t)
    ensures CleanForTelegram(text) == t
  {
    SpacedIdentity(t);
    KeepPrintableIdentity(t);
    StripTrimmed(t);
  }

  /** The deletions on the sample of `StrikethroughReforms`. */
  lemma StrikeSampleDeleted()
    ensures Deleted("~[~") == "~~"
  {
    StrikeSampleMarkdown();
    StrikeSampleBrackets();
  }

  /** The sample of `StrikethroughReforms` holds no markdown marker. */
  lemma StrikeSampleMarkdown()
    ensures StripMarkdown("~[~") == "~[~"
  {
    var s := "~[~";
    assert Avoids(s, {'*'}) && Avoids(s, {'_'}) && Avoids(s, {'`'});
    AvoidsHeadNoOccurrence(s, "**");
    AvoidsHeadNoOccurrence(s, "*");
    AvoidsHeadNoOccurrence(s, "_");
    AvoidsHeadNoOccurrence(s, "`");
    AvoidsHeadNoOccurrence(s, "__");
    AvoidsHeadNoOccurrence(s, "```");
    ReplaceAllAbsent(s, "**", "");
    ReplaceAllAbsent(s, "*", "");
    ReplaceAllAbsent(s, "_", "");
    ReplaceAllAbsent(s, "`", "");
    ReplaceAllAbsent(s, "__", "");
    ReplaceAllAbsent(s, "```", "");
    assert !Contains(s, "~~") by {
      assert s[..2] != "~~" && s[1..][..2] != "~~" && |s[1..][1..]| < 2;
    }
    ReplaceAllAbsent(s, "~~", "");
  }

  /** The bracket loop on the sample of `StrikethroughReforms` deletes its bracket. */
  lemma StrikeSampleBrackets()
    ensures DropChars("~[~", ProblematicChars) == "~~"
  {
    var s := "~[~";
    var t := "~~";
    assert ReplaceAll(s, "[", []) == t by {
      assert s[1..] == "[~" && s[1..][1..] == "~";
    }
    assert Avoids(t, Dropped(ProblematicChars[1..])) by {
      DroppedIff(ProblematicChars[1..], '~');
    }
    DropFirstThenRest(s, ProblematicChars, t);
  }

  /** Deleting the first listed character gives `t`, and the rest of the list leaves `t` alone. */
  lemma DropFirstThenRest(s: string, chars: seq<char>, t: string)
    requires chars != [] && !IsParen(chars[0]) && ReplaceAll(s, [chars[0]], []) == t
    requires Avoids(t, Dropped(chars[1..]))
    ensures DropChars(s, chars) == t
  {
    DropCharsUnchanged(t, chars[1..]);
  }

  /** The sample of `FilterAfterCollapse` passes the stages before the filter unchanged. */
  lemma SampleIsPlain(x: char, y: char)
    requires 'a' <= x <= 'z' && 'a' <= y <= 'z'
    ensures Avoids([x, ' ', '\U{1}', ' ', y], Removed + {'~'})
    ensures !Contains([x, ' ', '\U{1}', ' ', y], "  ")
    ensures !Contains([x, ' ', '\U{1}', ' ', y], "\n\n\n")
  {
    var s := [x, ' ', '\U{1}', ' ', y];
    forall i | 0 <= i < |s| ensures s[i] !in Removed + {'~'} + {'\n'} {
      assert s[i] == x || s[i] == ' ' || s[i] == '\U{1}' || s[i] == y;
    }
    forall i | 0 <= i && i + 2 <= |s| ensures !OccursAt(s, "  ", i) {
      assert s[i..i + 2][0] == s[i] && s[i..i + 2][1] == s[i + 1];
    }
    ContainsIff(s, "  ");
    AvoidsHeadNoOccurrence(s, "\n\n\n");
  }

  /** The filter on the sample of `FilterAfterCollapse`, one character at a time. */
  lemma FilterSample(x: char, y: char)
    requires 'a' <= x <= 'z' && 'a' <= y <= 'z'
    ensures KeepPrintable([x, ' ', '\U{1}', ' ', y]) == [x, ' ', ' ', y]
    ensures Trimmed([x, ' ', ' ', y])
  {
    var s := [x, ' ', '\U{1}', ' ', y];
    assert s[1..] == [' ', '\U{1}', ' ', y];
    assert KeepPrintable([y]) == [y] by { assert [y][1..] == []; }
    assert KeepPrintable([' ', y]) == [' ', y] by { assert [' ', y][1..] == [y]; }
    assert KeepPrintable(['\U{1}', ' ', y]) == [' ', y] by { assert ['\U{1}', ' ', y][1..] == [' ', y]; }
    assert KeepPrintable([' ', '\U{1}', ' ', y]) == [' ', ' ', y] by {
      assert [' ', '\U{1}', ' ', y][1..] == ['\U{1}', ' ', y];
    }
    assert [x] + [' ', ' ', y] == [x, ' ', ' ', y];
  }

  lemma {:induction false} DropCharsUnchanged(s: string, chars: seq<char>)
    requires Avoids(s, Dropped(chars))
    ensures DropChars(s, chars) == s
    decreases |chars|
  {
    if chars != [] {
      if !IsParen(chars[0]) {
        AvoidsHeadNoOccurrence(s, [chars[0]]);
        ReplaceAllAbsent(s, [chars[0]], []);
      }
      DropCharsUnchanged(s, chars[1..]);
    }
  }
}
