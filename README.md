# Rate limiter and reply formatting of a tax-assistant Telegram bot, in Dafny

This project models the core of a Telegram bot that answers tax questions.

- **The rate limiter** (`utils/rate_limiter.py`, class `RateLimiter`). It keeps one
  queue of request timestamps per user and per request type.
  - The queues sit in a nested dictionary that creates missing entries on first access.
  - A request is admitted while the pruned queue is below the type's cap. Pruning drops
    the queue's front while the entry is more than the window old.
  - Unknown request types fail open.
  - It also reports the remaining quota, reset times, per-user and global statistics.
  - A cleanup operation drops old entries, then empty queues, then empty users.
- **The text cleaner for Telegram** (`_clean_text_for_telegram`). It deletes markdown
  markers and bracket characters but keeps parentheses. Its quote "normalisation"
  replaces each quote by itself. It collapses runs of spaces and of newlines, drops
  control characters and strips the ends.
- **The reply builders**:
  - the tax answer (`format_tax_response`), with the confidence-percentage rendering as a
    parameter;
  - the confidence emoji;
  - the quota-exhausted messages.
- **The normalisation of extracted document text** (`_clean_extracted_text`).

Modules:

- `LimiterSpec` (`limiter_spec.dfy`) states the limiter as functions on values: queues
  are `seq<int>`, and the registry is `map<int, map<string, seq<int>>>`. It holds the
  lemmas about those functions.
- `Limiter` (`limiter.dfy`) is the imperative limiter.
  - Class `RateLimiter` holds the registry in a field that its methods update.
  - Every loop of the source is a `while` or `for` loop proved against the matching
    function of `LimiterSpec`, except the `del` loops of `cleanup_old_data`. Each of those
    is one map subtraction.
- `Text` (`text.dfy`) models the Python string operations the core uses:
  - `in`, `str.replace`, `str.strip` with Python's whitespace set;
  - `split` and `join` on one character;
  - the `while pat in s: s = s.replace(...)` loop.
- `TelegramText` (`telegram_text.dfy`) models the Telegram text cleaner.
- `ReplyFormat` (`reply_format.dfy`) models the formatters.
- `ExtractedText` (`extracted_text.dfy`) models the extracted-text normaliser.

Time is a whole number of seconds `now`, passed to every operation.

Properties of the source as written that the proofs bring out:

- A page-marker line is never blank, so `_clean_extracted_text` keeps exactly the
  non-blank lines (`KeepLineIff`).
- The joined lines of `_clean_extracted_text` never hold an empty line, so its collapsing
  loop never runs (`JoinedNeedsNoCollapse`).
- In `_clean_text_for_telegram` the control-character filter runs after the space
  collapse, so a control character between two spaces leaves a double space behind
  (`FilterAfterCollapse`).
- In `_clean_text_for_telegram` the bracket deletion runs after the markdown deletions,
  so a `~~` marker can form again: `"~[~"` cleans to `"~~"` (`StrikethroughReforms`).
  The cleaner therefore promises no `*`, `_`, backquote or non-parenthesis bracket, but
  not the absence of `~~`.
- `get_reset_time` does not prune the queue it reads, so its answer can lie before
  `now` (`ResetTimeMeaning`). Only inside `get_user_stats`,
  where the remaining-count read has just pruned the queue, is the reset time that of
  the pruned queue (`StatsForMeaning`).
- `get_global_stats` counts entries strictly less than a day old. The quota uses a
  non-strict bound (`CountRecentIsPrunedLength`).

## Model

| member | source | states |
|---|---|---|
| LimiterSpec.PolicyOrderListsLimits | utils/rate_limiter.py:21-32 | the policy table has exactly the types `text_query` and `document_analysis`, listed in that order |
| LimiterSpec.Expired | utils/rate_limiter.py:58-59 | the number of leading entries strictly more than `window` seconds old: all before it are, the next is not |
| LimiterSpec.PruneDropsExpired | utils/rate_limiter.py:57-59 | the `popleft` loop removes exactly the expired prefix of the queue |
| LimiterSpec.PruneKeepsExactlyRecent | utils/rate_limiter.py:57-59 | on a sorted queue, pruning keeps an entry iff it is at most `window` seconds old, and the result stays sorted |
| LimiterSpec.PruneIdempotent | utils/rate_limiter.py:57-59 | pruning twice at the same instant equals pruning once |
| LimiterSpec.PruneKeepsOrder | utils/rate_limiter.py:57-59 | pruning keeps a queue sorted and with no entry later than `now` |
| LimiterSpec.Prune | utils/rate_limiter.py:57-59 | the `popleft` loop as a function; it never lengthens the queue (its meaning is in `PruneDropsExpired` and `PruneKeepsExactlyRecent`) |
| LimiterSpec.Admit | utils/rate_limiter.py:57-67 | the decision and the queue `check_rate_limit` leaves for a known type (its meaning is in `AdmitByRecentCount`, `AdmitBounded` and `BurstFrom`) |
| LimiterSpec.PruneLengthCountsWithin | utils/rate_limiter.py:57-59 | on a sorted queue the pruned queue is as long as the number of entries at most `window` seconds old |
| LimiterSpec.AdmitByRecentCount | utils/rate_limiter.py:57-67 | on a sorted queue a request is admitted iff fewer than `maxRequests` entries are at most `timeWindow` seconds old; the queue left holds exactly those entries, plus `now` when admitted |
| LimiterSpec.CountWithin | utils/rate_limiter.py:57-62 | the number of entries at most `window` seconds old, counted one by one: the reference count `AdmitByRecentCount` and `PruneLengthCountsWithin` compare admission and pruning with |
| LimiterSpec.AdmitBounded | utils/rate_limiter.py:61-67 | a queue within its cap stays within it after an admission attempt |
| LimiterSpec.AdmitKeepsOrder | utils/rate_limiter.py:57-67 | with a clock that does not go back, the queue stays sorted and holds no entry older than the window |
| LimiterSpec.Burst | utils/rate_limiter.py:57-67 | `n` calls of `check_rate_limit` at one instant: how many are admitted and the queue left (its meaning is in `BurstFrom` and `BurstFromEmpty`) |
| LimiterSpec.BurstFrom | utils/rate_limiter.py:57-67 | `n` attempts at one instant on a queue of `k` entries recorded at that instant admit `min(n, cap - k)` and record exactly that many more |
| LimiterSpec.BurstFromEmpty | utils/rate_limiter.py:57-67 | `n` attempts at one instant on an empty queue admit `min(n, cap)` and record exactly that many entries |
| LimiterSpec.FifteenTextQueriesAtOnce | utils/rate_limiter.py:22-67 | fifteen simultaneous text queries: ten admitted, ten entries recorded |
| LimiterSpec.Free | utils/rate_limiter.py:89-93 | `max(0, max_requests - len(queue))` after pruning (its meaning is in `FreeBounds`, `AdmissionUsesOneSlot` and `TextQueryWindowEdge`) |
| LimiterSpec.FreeBounds | utils/rate_limiter.py:89-93 | the remaining quota lies in `[0, cap]` and equals the cap once every entry has aged out |
| LimiterSpec.AdmissionUsesOneSlot | utils/rate_limiter.py:61-93 | an admission lowers the remaining quota at that instant by exactly one |
| LimiterSpec.TextQueryWindowEdge | utils/rate_limiter.py:22-67 | after ten text queries at `t0` the eleventh is denied; no slot is free at `t0 + 3600` and all ten are free at `t0 + 3601` |
| LimiterSpec.WithQueueFrame | utils/rate_limiter.py:55-55 | storing a queue materialises the `(user, type)` ledger with that queue and touches no other ledger |
| LimiterSpec.CheckOutcome | utils/rate_limiter.py:45-70 | `check_rate_limit`: unknown types admit and leave the registry alone; known types touch only their own ledger |
| LimiterSpec.RemainingOutcome | utils/rate_limiter.py:79-93 | `get_remaining_requests`: -1 and no change for unknown types; only the own ledger touched for known ones |
| LimiterSpec.ResetOutcome | utils/rate_limiter.py:102-117 | `get_reset_time`: `now` and no change for unknown types; for known types the ledger is created but its contents are not changed |
| LimiterSpec.UnknownTypesFailOpen | utils/rate_limiter.py:46-103 | for an unknown type: admitted, remaining -1, reset time `now`, registry unchanged |
| LimiterSpec.KnownTypeOutcomes | utils/rate_limiter.py:50-93 | for a known type: admitted iff the pruned ledger is below the cap, which is left pruned (plus `now` if admitted); the remaining-count read leaves the ledger pruned and returns a value in `[0, cap]` |
| LimiterSpec.ResetTimeMeaning | utils/rate_limiter.py:108-117 | with an empty ledger the reset time is `now`; otherwise nothing is pruned at any instant up to it and the oldest entry is pruned after it, so a full ledger is denied up to the reset time and admitted after it, and the remaining quota is larger after it than at it; when the oldest entry has already expired the reset time lies before `now` |
| LimiterSpec.OperationsKeepWellFormed | utils/rate_limiter.py:45-117 | all three per-request operations keep every ledger of a known type and within its cap |
| LimiterSpec.OperationsKeepChronological | utils/rate_limiter.py:54-67 | with a clock that does not go back, all three operations keep every ledger sorted and not after `now` |
| LimiterSpec.StatsFor | utils/rate_limiter.py:127-137 | one iteration of `get_user_stats`: the remaining-count read, then the reset read, and the figures built from them (its meaning is in `StatsForMeaning` and `StatsUsedIsPrunedLength`) |
| LimiterSpec.CollectStats | utils/rate_limiter.py:125-139 | `get_user_stats` over a list of types, in order (its meaning is in `UserStatsMeaning`) |
| LimiterSpec.StatsForMeaning | utils/rate_limiter.py:127-137 | one type's figures: limit, remaining read after pruning, `used = limit - remaining`, the reset time of the pruned ledger, the description |
| LimiterSpec.UserStatsMeaning | utils/rate_limiter.py:125-139 | `get_user_stats` reports exactly the two configured types, each as `StatsForMeaning` says, and leaves other users' entries unchanged |
| LimiterSpec.StatsUsedIsPrunedLength | utils/rate_limiter.py:127-137 | on a ledger within its cap, `used` is the number of requests still in the window |
| LimiterSpec.CleanLedgers | utils/rate_limiter.py:151-162 | one user's ledgers pruned with `maxAge`, the emptied ones deleted (its meaning is in `CleanedAt`) |
| LimiterSpec.Cleaned | utils/rate_limiter.py:148-170 | the registry after `cleanup_old_data` (its meaning is in `CleanedAt`, `CleanupShape`, `CleanupOnSortedLedgers`, `CleanupOfExpiredRegistry` and `CleanupKeepsInvariants`) |
| LimiterSpec.RemovedUsers | utils/rate_limiter.py:164-170 | the users `cleanup_old_data` deletes: those left with no ledger (its meaning is in `CleanupShape` and `CleanupOfExpiredRegistry`) |
| LimiterSpec.CleanedAt | utils/rate_limiter.py:148-170 | after cleanup a ledger is present iff pruning it with `maxAge` leaves something, and it is then that pruned queue |
| LimiterSpec.CleanupShape | utils/rate_limiter.py:148-170 | after cleanup no ledger and no user entry is empty; removed users and survivors partition the old users |
| LimiterSpec.CleanupOnSortedLedgers | utils/rate_limiter.py:151-158 | when every ledger is sorted, cleanup leaves no entry older than `maxAge` and keeps every entry at most `maxAge` old |
| LimiterSpec.CleanupOfExpiredRegistry | utils/rate_limiter.py:148-170 | when every entry is older than `maxAge`, cleanup deletes every user |
| LimiterSpec.CleanupKeepsInvariants | utils/rate_limiter.py:148-170 | cleanup keeps the well-formedness and the chronological invariants |
| LimiterSpec.CountRecent | utils/rate_limiter.py:193-193 | the number of entries strictly less than a day old (its meaning is in `CountRecentAll` and `CountRecentIsPrunedLength`) |
| LimiterSpec.CountRecentAll | utils/rate_limiter.py:193-193 | on a sorted ledger whose oldest entry is less than a day old, every entry counts as recent |
| LimiterSpec.CountRecentIsPrunedLength | utils/rate_limiter.py:193-193 | on a sorted ledger the recent count equals the length of the ledger pruned with a window of 86399 seconds |
| LimiterSpec.ActiveUsers | utils/rate_limiter.py:188-200 | the users with an entry less than a day old in some ledger (its meaning is in `ActiveAtMostTotal` and `RegistryStats`) |
| LimiterSpec.UserTracked | utils/rate_limiter.py:191-194 | one user's recent entries summed over the user's ledgers, in any order (the reference value `UserRecentRequests` is proved against) |
| LimiterSpec.TotalTracked | utils/rate_limiter.py:188-194 | `total_requests_tracked`: recent entries summed over all users (the reference value `RegistryStats` is proved against) |
| LimiterSpec.ActiveAtMostTotal | utils/rate_limiter.py:180-200 | active users are registered users, so `active_users <= total_users` |
| Limiter.PopExpired | utils/rate_limiter.py:58-59 | the `popleft` loop computes `Prune` |
| Limiter.CountRecentRequests | utils/rate_limiter.py:193-193 | the counting loop computes the number of entries less than a day old |
| Limiter.CleanUserLedgers | utils/rate_limiter.py:151-162 | one user's ledgers pruned with `maxAge`, the emptied ones deleted |
| Limiter.UserRecentRequests | utils/rate_limiter.py:189-197 | one user's recent-entry total over all ledgers, and whether that user has any recent entry |
| Limiter.CleanEachUser | utils/rate_limiter.py:148-166 | every user's ledgers cleaned; exactly the users left with no ledger are collected |
| Limiter.CleanRegistry | utils/rate_limiter.py:146-170 | the cleaned registry, and the number of users removed |
| Limiter.RegistryStats | utils/rate_limiter.py:180-200 | total users, users active in the last day, and entries of the last day |
| Limiter.RateLimiter.constructor | utils/rate_limiter.py:16-18 | the limiter starts with an empty registry |
| Limiter.RateLimiter.CheckRateLimit | utils/rate_limiter.py:34-70 | the verdict and the new registry are those of `CheckOutcome`; both invariants are kept |
| Limiter.RateLimiter.GetRemainingRequests | utils/rate_limiter.py:76-93 | the value and the new registry are those of `RemainingOutcome`; both invariants are kept |
| Limiter.RateLimiter.GetResetTime | utils/rate_limiter.py:99-117 | the value and the new registry are those of `ResetOutcome`; both invariants are kept |
| Limiter.RateLimiter.TypeStatsOf | utils/rate_limiter.py:127-137 | one loop iteration of `get_user_stats`: the figures and the registry of `StatsFor` |
| Limiter.RateLimiter.GetUserStats | utils/rate_limiter.py:123-139 | the report and the registry of `CollectStats` over the policy table in order |
| Limiter.RateLimiter.CleanupOldData | utils/rate_limiter.py:141-172 | the registry becomes `Cleaned(old, now, maxAgeHours * 3600)`; returns the count of removed users; both invariants are kept |
| Limiter.RateLimiter.GetGlobalStats | utils/rate_limiter.py:177-202 | the three global figures, computed without changing the registry |
| Text.ContainsIff | utils/response_formatter.py:206-209 | `pat in s` holds iff `pat` occurs at some index of `s` |
| Text.Contains | utils/response_formatter.py:206-208 | Python's `pat in s` (its meaning is in `ContainsIff`) |
| Text.ReplaceAll | utils/response_formatter.py:192-209 | Python's `s.replace(pat, rep)`: leftmost non-overlapping occurrences, left to right (its meaning is in the `ReplaceAll…` lemmas below) |
| Text.ReplaceAllSelf | utils/response_formatter.py:203-203 | replacing a pattern by itself changes nothing |
| Text.ReplaceAllShrinks | utils/response_formatter.py:206-209 | a shorter replacement never lengthens the string, and strictly shortens it when the pattern occurs |
| Text.ReplaceAllKeepsCount | utils/response_formatter.py:192-209 | a replacement keeps the count of every character in neither the pattern nor the replacement |
| Text.ReplaceAllAvoids | utils/response_formatter.py:192-200 | a replacement brings in no character that is absent from both the input and the replacement |
| Text.ReplaceAllAbsent | utils/response_formatter.py:192-200 | replacing an absent pattern changes nothing |
| Text.CollapseRuns | utils/response_formatter.py:206-209 | the result of the `while pat in s` loop no longer contains `pat` |
| Text.Collapse | utils/response_formatter.py:206-209 | the `while pat in s: s = s.replace(pat, rep)` loop, which terminates and leaves no `pat` |
| Text.CollapseRunsNoPair | utils/response_formatter.py:206-209 | a collapse whose replacement is non-empty and free of `c` creates no doubled `c`, so the newline collapse brings back no double space |
| Text.IsSpace | utils/response_formatter.py:214-214 | the whitespace set of Python's `str.strip()` (used by `Strip`, whose contract characterises the strip) |
| Text.Strip | utils/response_formatter.py:214-214 | `strip()`: the slice left after leading and trailing whitespace, with no whitespace at either end; empty iff the input is all whitespace |
| Text.StripIdempotent | utils/response_formatter.py:214-214 | stripping twice is stripping once |
| Text.StripKeepsCount | utils/response_formatter.py:214-214 | stripping keeps the count of every non-whitespace character |
| Text.Split | services/document_processor.py:131-131 | Python's `s.split(sep)` for one character; every piece is separator-free (its meaning is in `JoinSplit` and `SplitJoin`) |
| Text.Join | services/document_processor.py:143-143 | Python's `sep.join(parts)` for one character (its meaning is in `JoinSplit`, `SplitJoin` and `JoinNoEmptyPiece`) |
| Text.JoinSplit | services/document_processor.py:131-144 | joining the pieces of a split gives the string back |
| Text.SplitJoin | services/document_processor.py:131-144 | splitting a join of separator-free pieces gives the pieces back |
| Text.JoinNoEmptyPiece | services/document_processor.py:144-148 | joining non-empty, separator-free pieces never puts two separators side by side |
| TelegramText.ControlCharsIff | utils/response_formatter.py:212-212 | a character is a control character iff the filter drops it |
| TelegramText.KeepPrintable | utils/response_formatter.py:212-212 | the filter keeps only characters of code 32 or more, and tab, newline and carriage return |
| TelegramText.DropProblematic | utils/response_formatter.py:196-200 | the loop over the bracket characters deletes each one and skips the parentheses |
| TelegramText.CleanTextForTelegram | utils/response_formatter.py:186-214 | the cleaner run stage by stage computes `CleanForTelegram` |
| TelegramText.StripMarkdown | utils/response_formatter.py:192-193 | the seven markdown deletions in the source's order (its meaning is in `StripMarkdownAvoids` and `StripMarkdownKeepsCount`) |
| TelegramText.DropChars | utils/response_formatter.py:196-200 | each listed character deleted in turn, the parentheses skipped (its meaning is in `DropCharsKeepsParens` and `DroppedProblematic`) |
| TelegramText.NormalizeQuotes | utils/response_formatter.py:203-203 | the four quote replacements (its meaning is in `NormalizeQuotesIdentity`) |
| TelegramText.Deleted | utils/response_formatter.py:192-200 | the markdown deletions, then the bracket loop (its meaning is in `CleanRemovesMarkup` and `StrikethroughReforms`) |
| TelegramText.Spaced | utils/response_formatter.py:203-209 | the quote step, then the two collapse loops (its meaning is in `CleanCollapsesRuns`) |
| TelegramText.Collapsed | utils/response_formatter.py:192-209 | every stage before the control filter (its meaning is in `CleanKeepsParens` and `FilterAfterCollapse`) |
| TelegramText.StripMarkdownAvoids | utils/response_formatter.py:192-193 | the markdown deletions leave no `*`, `_` or backquote |
| TelegramText.StripMarkdownKeepsCount | utils/response_formatter.py:192-193 | the markdown deletions keep the count of every other character except `~` |
| TelegramText.DropCharsKeepsParens | utils/response_formatter.py:196-200 | the bracket loop keeps every parenthesis |
| TelegramText.DroppedProblematic | utils/response_formatter.py:196-200 | the loop deletes exactly `[ ] { } \| \ < >` |
| TelegramText.NormalizeQuotesIdentity | utils/response_formatter.py:203-203 | the quote step is the identity |
| TelegramText.KeepPrintableIdentity | utils/response_formatter.py:212-212 | the filter leaves text without control characters unchanged |
| TelegramText.CleanEmpty | utils/response_formatter.py:188-189 | empty input gives empty output |
| TelegramText.CleanForTelegram | utils/response_formatter.py:186-214 | `_clean_text_for_telegram` as a function; its meaning is in the lemmas below |
| TelegramText.CleanRemovesMarkup | utils/response_formatter.py:186-214 | no `*`, `_` or backquote survives, and no bracket character other than the parentheses |
| TelegramText.CleanKeepsParens | utils/response_formatter.py:186-214 | the output has exactly as many of each parenthesis as the input |
| TelegramText.CleanIsPrintableAndTrimmed | utils/response_formatter.py:211-214 | the output holds no control character and has no whitespace at either end |
| TelegramText.CleanCollapsesRuns | utils/response_formatter.py:205-214 | on input without control characters, the output has no double space and no triple newline |
| TelegramText.CleanPlainText | utils/response_formatter.py:186-214 | plain trimmed text with no markers, control characters or runs is its own cleaning |
| TelegramText.FilterAfterCollapse | utils/response_formatter.py:205-212 | `"x \U{1} y"` cleans to `"x  y"`: the filter runs after the collapse |
| TelegramText.StrikethroughReforms | utils/response_formatter.py:192-200 | `"~[~"` cleans to `"~~"`: the bracket deletion runs after the strikethrough deletion |
| ReplyFormat.ConfidenceEmoji | utils/response_formatter.py:175-184 | `_get_confidence_emoji` as a function; its meaning is in `ConfidenceEmojiBands` |
| ReplyFormat.ConfidenceEmojiBands | utils/response_formatter.py:175-184 | the emoji's rank (red 0 to green 3) equals the number of thresholds 0.5, 0.7, 0.9 that are reached |
| ReplyFormat.ConfidenceEmojiMonotone | utils/response_formatter.py:175-184 | a higher confidence never gets a lower emoji |
| ReplyFormat.EmojiDistinct | utils/response_formatter.py:177-184 | the four emoji are distinct |
| ReplyFormat.Take | utils/response_formatter.py:42-52 | `s[:n]`: the first `min(len(s), n)` elements |
| ReplyFormat.ClipAnswer | utils/response_formatter.py:31-33 | the answer cut to 3500 characters plus the note (its meaning is in `ClipAnswerKeepsOpening`) |
| ReplyFormat.ClipSection | utils/response_formatter.py:44-45 | a cleaned section cut to 100 characters plus `...` (its meaning is in `ClipSectionShape`) |
| ReplyFormat.SectionEntry | utils/response_formatter.py:43-45 | one section cleaned and clipped (its meaning is in `SectionEntryShape`) |
| ReplyFormat.SectionEntries | utils/response_formatter.py:42-45 | at most three section entries, each the cleaned and clipped section at the same index |
| ReplyFormat.CleanAnswer | utils/response_formatter.py:28-33 | the answer cleaned and cut to 3500 characters plus the note |
| ReplyFormat.AppendSections | utils/response_formatter.py:40-47 | the sections loop appends exactly the sections block, and nothing for an empty list |
| ReplyFormat.AppendLinks | utils/response_formatter.py:50-54 | the links loop appends exactly the links block, and nothing for an empty list |
| ReplyFormat.FitToLimit | utils/response_formatter.py:64-66 | the final length check |
| ReplyFormat.FormatTaxResponse | utils/response_formatter.py:19-68 | the reply built by appending equals `TaxReply` |
| ReplyFormat.Bullets | utils/response_formatter.py:46-53 | one `f"• {x}\n"` line per entry, in order (its meaning is in `BulletsLength` and `SplitBullets`) |
| ReplyFormat.SectionsBlock | utils/response_formatter.py:40-47 | the sections block, absent for an empty list (its meaning is in `AppendSections` and `SectionsBlockBounded`) |
| ReplyFormat.LinksBlock | utils/response_formatter.py:50-54 | the links block, absent for an empty list (its meaning is in `AppendLinks` and `LinksBlockLines`) |
| ReplyFormat.Body | utils/response_formatter.py:36-62 | the reply before the final length check (its meaning is in `BodyOpening` and `TaxReplyKeepsOpening`) |
| ReplyFormat.Fit | utils/response_formatter.py:64-66 | the final length check (its meaning is in `FitShape` and `PrefixSurvivesFit`) |
| ReplyFormat.TaxReply | utils/response_formatter.py:19-68 | `format_tax_response` as a function; its meaning is in the lemmas below |
| ReplyFormat.FitShape | utils/response_formatter.py:61-66 | for any content between header and disclaimer: at most 4000 characters, ends with the disclaimer, starts with the header and with the body or its first 3900 characters |
| ReplyFormat.TaxReplyBounded | utils/response_formatter.py:36-66 | the reply never exceeds 4000 characters |
| ReplyFormat.TaxReplyEndsWithDisclaimer | utils/response_formatter.py:61-66 | the reply always ends with the short disclaimer |
| ReplyFormat.TaxReplyKeepsOpening | utils/response_formatter.py:36-66 | the reply starts with the header and with the whole body when it fits, otherwise with its first 3900 characters |
| ReplyFormat.MissingAnswerReply | utils/response_formatter.py:22-37 | with no answer the reply opens with the header, `No answer available` and a blank line |
| ReplyFormat.PrefixSurvivesFit | utils/response_formatter.py:65-66 | a prefix of the body of at most 3900 characters is a prefix of the reply |
| ReplyFormat.BodyOpening | utils/response_formatter.py:36-37 | the body opens with the header, the answer and a blank line |
| ReplyFormat.DefaultAnswerIsClean | utils/response_formatter.py:22-28 | cleaning leaves `No answer available` unchanged |
| ReplyFormat.PlainLettersClean | utils/response_formatter.py:186-214 | letters separated by single spaces, trimmed, pass through cleaning unchanged |
| ReplyFormat.ClipAnswerKeepsOpening | utils/response_formatter.py:31-33 | the clipped answer has at most 3500 characters plus the note, starts with the answer's first 3500 characters, and is the answer itself when short enough |
| ReplyFormat.SectionEntryShape | utils/response_formatter.py:43-46 | a section bullet holds at most 103 characters, starts with the cleaned section, and holds no markup |
| ReplyFormat.ClipSectionShape | utils/response_formatter.py:44-45 | clipping at 100 characters plus `...` keeps the opening and adds no markup |
| ReplyFormat.BulletsLength | utils/response_formatter.py:42-53 | each bullet line adds its entry and three characters |
| ReplyFormat.SectionsBlockBounded | utils/response_formatter.py:40-47 | at most three section bullets; the block's length is bounded |
| ReplyFormat.SplitBullets | utils/response_formatter.py:42-53 | splitting bullet lines at newlines gives `"• " + entry` for each entry, in order, then the rest |
| ReplyFormat.LinksBlockLines | utils/response_formatter.py:50-54 | no links block for an empty list; otherwise, for links without a newline, its lines are the title, then `"• " + link` for each of the first two links, verbatim and in order, then the blank line ending the block |
| ReplyFormat.RateLimitMessage | utils/response_formatter.py:121-146 | `format_rate_limit_response` as a function; its meaning is in `RateLimitMessageCases` |
| ReplyFormat.RateLimitMessageCases | utils/response_formatter.py:121-146 | each configured type has its own message, and exactly the types outside the table get the generic one |
| ExtractedText.CleanExtracted | services/document_processor.py:125-149 | `_clean_extracted_text` as a function; its meaning is in `CleanExtractedLines` and the lemmas below |
| ExtractedText.CleanExtractedText | services/document_processor.py:125-149 | the line loop, join and collapse compute `CleanExtracted` |
| ExtractedText.KeepLine | services/document_processor.py:139-139 | the test a line passes to survive: non-blank, or a page marker (its meaning is in `KeepLineIff`) |
| ExtractedText.KeptLines | services/document_processor.py:133-140 | the stripped forms of the surviving lines, in order (its meaning is in `KeptLinesShape`, `KeptLinesMembers` and `KeptLinesFrom`) |
| ExtractedText.KeepLineIff | services/document_processor.py:138-140 | a line survives iff it is not all whitespace: the page-marker exception is subsumed |
| ExtractedText.KeptLinesShape | services/document_processor.py:134-140 | the kept lines are non-empty, trimmed, and newline-free |
| ExtractedText.KeptLinesMembers | services/document_processor.py:134-140 | every surviving line appears, stripped, among the kept lines |
| ExtractedText.KeptLinesFrom | services/document_processor.py:134-140 | every kept line is the stripped form of a surviving input line |
| ExtractedText.KeptLinesOfClean | services/document_processor.py:134-140 | lines that are non-empty and trimmed all survive, unchanged |
| ExtractedText.JoinedNeedsNoCollapse | services/document_processor.py:143-148 | the joined lines hold no empty line, so the collapse loop leaves them unchanged |
| ExtractedText.CleanExtractedLines | services/document_processor.py:127-149 | empty in, empty out; otherwise the output is the kept lines joined by newlines, has no empty line, and splits back into exactly those lines |
| ExtractedText.CleanExtractedLineIff | services/document_processor.py:131-149 | when some line survives, a string is a line of the output iff it is the stripped form of a surviving input line |
| ExtractedText.PageMarkersSurvive | services/document_processor.py:138-140 | every page-marker line of the input appears, stripped, as a line of the output |
| ExtractedText.CleanExtractedIdempotent | services/document_processor.py:125-149 | cleaning twice is cleaning once |

## Left out

- Logging, and the `try`/`except` handlers. The one path where a modelled operation raises on the
  values the model admits is `datetime.fromtimestamp` in `get_reset_time`, listed below.
- The wall clock: `time.time()` and `datetime.now()` are an integer parameter `now`, in whole seconds.
- Floating-point time: an instant of the source is a float.
- `datetime.fromtimestamp`: a reset time is the number of seconds `oldest + window`, for every integer.
  The source raises for timestamps outside the platform's range and then returns `datetime.now()`;
  the model does not take that path.
- Concurrency: the source has no locking, and the model is sequential.
- Memory layout of `deque` and `defaultdict`: a deque is a `seq<int>` value, and `del` on a dictionary is map subtraction.
- Limiter.RateLimiter.CleanupOldData: the number of removed users is returned. The source only logs it.
- ReplyFormat.FormatTaxResponse: the `{confidence:.0%}` rendering is a parameter `percent`.
  - Python's float formatting is not modelled.
  - A confidence that is not a number is not modelled.
  - An answer that is not a string is not modelled.
  - A non-empty section that is not a string is not modelled. The source's `.replace` raises on it,
    and the source then returns the error reply.
  - A link is a string; the source formats any value with `str()`.
- ReplyFormat.ConfidenceEmoji: a finite confidence stands for the decimal its float is written as
  (its shortest repr), compared with the exact reals 0.9, 0.7 and 0.5. Rounding to a double is
  monotone, and the shortest repr of the double nearest a threshold is the threshold itself. So
  this reading gives the source's emoji for every finite float. NaN and ±infinity are not modelled,
  because no `real` stands for them. The source gives NaN 🔴 and +infinity 🟢. The float arithmetic
  itself is not modelled.
- The other members of `ResponseFormatter`, `DocumentProcessor` and the rest of the bot: they are not part of this model.
- The extraction of text from PDF files: it calls an external library. A page marker is written only for
  a page that yields text.
- Python strings that hold a lone surrogate code point: a Dafny `char` is a Unicode scalar value.
