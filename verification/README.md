# agent-fs live: verified models

These Dafny modules model the state and text logic behind the live view of agent-fs
(`live/src`) and prove what it is meant to keep:

- **Comment anchors** (`Text`, `Normalization`, `Candidates`, `Context`, `ContextRules`,
  `OwnContext`, `LineRemap`, `TextSpaces`, `Anchor`, `AnchorStages`, `CaptureLimits`). A
  comment stores a quote with the text around it. To find it again, the text is normalised
  with an index map back to the original, searched, and the occurrences are told apart by
  context; a diff carries line ranges into the current version; four stages decide. The main
  results say which stage decides and what it answers, when a quote can be lost, that the
  place it was taken from is found again on unchanged text, where that fails, and what a
  remapped line range means, for every edit script.
- **HTML source text** (`HtmlTextSpace`, `HtmlPage`). The one-pass tokenizer that reads a
  page's text with a source offset for each character, what it reads of pages printed from
  their pieces, and the searches between offsets and lines.
- **Presence** (`Presence`, `PresenceSends`, `Throttle`). Where a caret, selection or
  pointer that was sent lands on the other side, and the throttle that sends it.
- **Drive image cache** (`ImageCache`). Who owns an object URL, who holds it, and when it is
  revoked, over every run of the cache.
- **Comments in the cache** (`Comments`, `CommentEntries`, `CommentUndo`, `CommentResolve`,
  `CommentMarks`, `CommentRuns`). Optimistic comments under every interleaving of adds,
  refetches and outcomes; what each change shows; undoing a failed add; resolving, reopening
  and rolling back; and all of these on both cached lists.
- **Event stream** (`Sse`, `SseLines`, `SseCuts`, `SseChunks`), **HTML comment bridge**
  (`Bridge`), **file content cache** (`FileContent`) and **folder tree** (`TreeRows`).

`Sorting` and `Wrappers` hold what the modules share. Code that works by loops or by
updating fields is a method or a class, proved against a function; the theorems are about
that function. Runs are sequences of steps, and the theorems hold for all of them.

Assumptions of the model:

- A text is a sequence of characters. The Unicode tables (what lower-casing gives, what is
  a letter or a digit) are function parameters, and so is decoding one HTML character
  reference: the theorems hold for all of them, apart from the conditions they state.
- Where a theorem compares contexts at a quote's own place, blanks and `]` are neither
  letters nor digits and do not lower-case to any.
- Which HTML elements are blocks and which are skipped with their content is a parameter;
  `CodeRules` has the code's lists, which share no element.
- Times are integers. The collation order of names is a real-valued key.
- An absent quote prefix or suffix is the empty string; the code treats the two alike.
- An edit script has true line numbers and may leave out unchanged lines only at its start,
  at its end, or between two context lines; a complete diff leaves out nothing.
- Timers, the browser's URL store, the server and the page in the frame are part of the
  state; callbacks, requests and outcomes are steps that may come in any order.

## Model

| member | source | states |
|---|---|---|
| `Normalization.NormalizeText` | live/src/lib/comment-anchor.ts:99-121 | the loop computes the specified normal form with its index map |
| `Normalization.EmitMeaning` | live/src/lib/comment-anchor.ts:93-121 | what each character gives: the strict form keeps one space of each run of blanks, the loose form leaves out blanks and the ten markdown signs and lower-cases the rest |
| `Normalization.OriginStretch` | live/src/lib/comment-anchor.ts:99-121 | index map: a normal-form character came from original character `i` exactly when it lies in the stretch `i` gave, and the map never goes back |
| `Normalization.NormalizeSlice` | live/src/lib/comment-anchor.ts:99-121 | normalising a slice gives exactly the part of the whole text's normal form that the slice gave, wherever the cut does not split a run of blanks |
| `Normalization.SliceNormalizesBack` | live/src/lib/comment-anchor.ts:99-121 | the original slice behind a stretch of the normal form normalises back to that stretch if and only if the stretch does not cut through what one character gave |
| `Normalization.AlwaysAligned` | live/src/lib/comment-anchor.ts:99-121 | no stretch cuts through a character in strict mode, nor in loose mode when case folding is one to one |
| `Normalization.HayCache.NormalizeHay` | live/src/lib/comment-anchor.ts:127-136 | the memo always answers with a fresh normalisation, whatever was searched before |
| `Candidates.FindAllLoop` | live/src/lib/comment-anchor.ts:145-156 | the search loop finds exactly the first 500 occurrences, overlapping ones included |
| `Candidates.FindAllSound` | live/src/lib/comment-anchor.ts:145-156 | each candidate is a non-empty slice of the text that normalises back to exactly the needle (strict, or loose with one-to-one folding) |
| `Candidates.HitsMeaning` | live/src/lib/comment-anchor.ts:145-156 | an occurrence counts if and only if fewer than 500 come before it |
| `Candidates.DottedCapitalFoundInHalf` | live/src/lib/comment-anchor.ts:113-156 | where it is not one-to-one: the capital dotted I lower-cases to `i` and a combining dot, and a loose search for `i` finds it although the whole character does not normalise back to `i` |
| `Candidates.FindAllOrdered` | live/src/lib/comment-anchor.ts:145-156 | candidates come in order of start and of end, with strictly increasing starts in strict mode or with one-to-one folding |
| `Candidates.FindAllComplete` | live/src/lib/comment-anchor.ts:145-156 | every slice that normalises to the needle, and is within the cap, is found |
| `Candidates.FindQuoteMembers` | live/src/lib/comment-anchor.ts:258-266 | the merged list has all strict matches and exactly those loose ones that no strict match overlaps |
| `Candidates.FindQuoteOrdered` | live/src/lib/comment-anchor.ts:258-266 | with one-to-one folding the merged list is in strictly increasing order of start |
| `Candidates.QuoteOccursListed` | live/src/lib/comment-anchor.ts:258-266 | a quote that occurs in either normal form has a candidate |
| `Context.CommonSuffixLoop` | live/src/lib/comment-anchor.ts:158-162 | the counting loop finds the length of the longest common suffix |
| `Context.CommonPrefixLoop` | live/src/lib/comment-anchor.ts:164-168 | the counting loop finds the length of the longest common prefix |
| `Context.SideMatchLoop` | live/src/lib/comment-anchor.ts:183-194 | the nested loops find the best match over all ways to skip up to three characters on either side |
| `ContextRules.SideMatchMeaning` | live/src/lib/comment-anchor.ts:183-194 | the match of one side is the longest stretch of characters that agrees when up to three are skipped on either side, past the end of a short text too |
| `ContextRules.TargetsLeftOut` | live/src/lib/comment-anchor.ts:173-175 | a context key leaves out the targets of all links, closed or cut off by a blank, and nothing else |
| `Context.ContextMatch` | live/src/lib/comment-anchor.ts:207-224 | the loop over the two sides computes the score and the conflict verdict |
| `ContextRules.DisagreementRule` | live/src/lib/comment-anchor.ts:207-224 | a side disagrees if and only if at least three letters or digits were saved there and nowhere enough of them agree with the three times as much text next to the candidate: half of them, at least eight, or all if there are fewer |
| `ContextRules.ScoreRule` | live/src/lib/comment-anchor.ts:207-224 | the score adds the best matches of the two sides |
| `Context.PickByContextLoop` | live/src/lib/comment-anchor.ts:227-238 | the one-pass loop with its "tied" flag returns a candidate exactly when it is the unique maximum by score, then strictness, with a positive score |
| `Context.PickIgnoresOrder` | live/src/lib/comment-anchor.ts:227-238 | the pick does not depend on the order of the list |
| `Context.NearestLoop` | live/src/lib/comment-anchor.ts:240-251 | the scan returns the first candidate at the least line distance, among those whose line is known |
| `Context.NearestIsFirst` | live/src/lib/comment-anchor.ts:240-251 | of several equally near candidates it is the first listed |
| `OwnContext.OwnPlaceAgrees` | live/src/lib/comment-anchor.ts:173-224 | the place a quote was taken from scores in full and never conflicts, when the window before it reaches the saved prefix and removing link targets from that window rests where the prefix begins, and the window after it reaches the saved suffix |
| `OwnContext.OwnSuffixAgrees` | live/src/lib/comment-anchor.ts:173-224 | the suffix side agrees in full whatever links it begins, ends or is cut in |
| `OwnContext.LinkFreeRests` | live/src/lib/comment-anchor.ts:173-175 | the removal rests wherever no link starts before |
| `OwnContext.CutLinkStillAgrees` | live/src/lib/comment-anchor.ts:173-224 | where the prefix begins inside a link, everything from a place on that both readings rest at counts, and the side agrees when that is as much as the comparison asks for |
| `CaptureLimits.LinkCutConflicts` | live/src/lib/comment-anchor.ts:207-224 | where the removal does not rest: for each link target of 32 to 93 letters, a quote right after the link conflicts with its own saved prefix |
| `LineRemap.RemapLineLoop` | live/src/lib/comment-anchor.ts:303-330 | the loop with its running shift computes the specified remapping |
| `LineRemap.RemapLineMeaning` | live/src/lib/comment-anchor.ts:303-330 | for every edit script: a kept line gets its new number, which lies in the new file; a removed one the place after what preceded it, which is at most one past the end |
| `LineRemap.RemapLineMonotone` | live/src/lib/comment-anchor.ts:303-330 | remapping keeps the order of lines |
| `LineRemap.RemapLineRangeLoop` | live/src/lib/comment-anchor.ts:332-364 | the code, with its two walks over the change block, computes the specified range |
| `LineRemap.SurvivorsStayInside` | live/src/lib/comment-anchor.ts:332-364 | each surviving line's new number lies in the remapped range, which lies within 1 and the new line count and is not deleted |
| `LineRemap.RangeEnds` | live/src/lib/comment-anchor.ts:332-364 | when some line survives, the range runs from the fate of its first line to that of its last |
| `LineRemap.UntouchedMeaning` | live/src/lib/comment-anchor.ts:332-364 | neither touched nor deleted if and only if every line of the range was kept with one common shift and nothing was added between |
| `LineRemap.UntouchedMeansUnchanged` | live/src/lib/comment-anchor.ts:332-364 | an untouched range has the same text, line by line |
| `LineRemap.RemovedRangeMeaning` | live/src/lib/comment-anchor.ts:332-364 | a fully removed range is deleted exactly when its change block adds nothing, and otherwise maps onto exactly the lines the block added |
| `LineRemap.DeletedMeaning` | live/src/lib/comment-anchor.ts:332-364 | deleted if and only if every line is gone and the block adds nothing |
| `TextSpaces.FindLineStarts` | live/src/lib/comment-anchor.ts:510-513 | the loop lists the line starts |
| `TextSpaces.OffsetToLineSearch` | live/src/lib/comment-anchor.ts:524-531 | the binary search equals counting newlines before the offset, clamped to the text |
| `TextSpaces.RangeMeaning` | live/src/lib/comment-anchor.ts:516-523 | an offset lies in the range of lines a to b exactly when its line does; none exactly when a is past the last line |
| `TextSpaces.RangeRoundTrip` | live/src/lib/comment-anchor.ts:516-531 | the ends of a line range map back to its first and last line |
| `Anchor.NoFalseLoss` | live/src/lib/comment-anchor.ts:375-457 | a quote that occurs is lost if and only if every occurrence conflicts with its context and its own trusted lines were deleted |
| `Anchor.NoFalseLossInText` | live/src/lib/comment-anchor.ts:375-457 | an occurrence in either normal form is enough to be found, unless the lines were deleted |
| `Anchor.QuoteOnlyStatus` | live/src/lib/comment-anchor.ts:375-457 | without lines, an occurring quote is anchored if and only if some occurrence does not conflict, and moved otherwise |
| `Anchor.QuoteRangeInText` | live/src/lib/comment-anchor.ts:278-294 | any range found from the quote or a part of it is non-empty and inside the text |
| `Anchor.QuoteReportsLines` | live/src/lib/comment-anchor.ts:368-373 | whatever is found by the quote or a part of it reports the line of its first and of its last character, in any space, and no lines in a space without lines |
| `Anchor.SourceLinesReported` | live/src/lib/comment-anchor.ts:368-373 | in plain source text these are the lines counted from the newlines before, the first not after the last |
| `AnchorStages.UsableMeaning` | live/src/lib/comment-anchor.ts:375-376 | a quote counts if and only if it is not blank |
| `AnchorStages.TrustedMeaning` | live/src/lib/comment-anchor.ts:378-385 | lines count as stored while the file is unchanged, where the diff moved them if it has line numbers or is empty, and not at all otherwise |
| `AnchorStages.FoundMeaning` | live/src/lib/comment-anchor.ts:392-403 | the occurrences that may be meant are those whose context fits, or without context the strict ones if there are any; the others are misfits only if there is context |
| `AnchorStages.CertainWins` | live/src/lib/comment-anchor.ts:404-405 | in any space, an occurrence that is the only one that may be meant, or that the context singles out, is the anchor, whatever the lines |
| `AnchorStages.NearestIsMeant` | live/src/lib/comment-anchor.ts:410-414 | of several that may be meant, none singled out, trusted lines that were not deleted settle on one nearest to them, among those whose line the space knows |
| `AnchorStages.LinesConfirm` | live/src/lib/comment-anchor.ts:415-416 | failing that, the anchor is the first misfit that shares a line with them |
| `AnchorStages.LinesStandIn` | live/src/lib/comment-anchor.ts:417-427 | failing that too, the lines stand for themselves if the space has them: its range for them, their numbers, moved exactly when touched |
| `AnchorStages.GuessInDoubt` | live/src/lib/comment-anchor.ts:432-435 | where the lines have nothing to say, an occurrence that may be meant is anchored and flagged ambiguous: one nearest to the stored line among the known ones, or the first in the text |
| `AnchorStages.MisfitsGuessed` | live/src/lib/comment-anchor.ts:436-442 | there, misfits alone are lost if the lines were deleted, and else flagged as moved at one nearest to the line, or at the first in the text |
| `AnchorStages.ShortQuoteLost` | live/src/lib/comment-anchor.ts:278-294 | a quote of at most 32 characters that is gone, with no lines to go by, is lost |
| `AnchorStages.PartsLeft` | live/src/lib/comment-anchor.ts:278-294 | a longer one is found if and only if its first or its last 32 characters still occur in the loose normal form; it spans both if they come in order and not too far apart, and else covers the first that is left; where a part occurs often, its context, the line or the text order decides |
| `Anchor.LinesOnlyMeaning` | live/src/lib/comment-anchor.ts:380-457 | in plain source text, without a usable quote and with a positive line: lost exactly when the lines were deleted or lie past the end; else exactly those lines, moved exactly when they were touched or could not be verified |
| `AnchorStages.LinesOnlyShown` | live/src/lib/comment-anchor.ts:378-453 | the same with the lines written out: as stored while the file is unchanged, remapped where a diff tells, and as stored but moved where nothing tells |
| `Anchor.ConflictNeedsLines` | live/src/lib/comment-anchor.ts:400-425 | an occurrence whose context conflicts is anchored only where trusted, undeleted lines overlap it |
| `Anchor.DiffWouldNotHelp` | live/src/lib/comment-anchor.ts:489-491 | when a resolution made without the diff says it needs no diff, no diff at all would change it |
| `Anchor.CaptureQuoteLoop` | live/src/lib/comment-anchor.ts:536-546 | the trimming loops compute the specified quote |
| `Anchor.CaptureTrims` | live/src/lib/comment-anchor.ts:536-546 | a selection yields no quote exactly when it is all blank |
| `Anchor.CaptureIsTaken` | live/src/lib/comment-anchor.ts:536-546 | the quote of a selection of at most 2000 characters is the trimmed selection with 32 characters of context on each side; a longer one keeps the first 2000, with the context of the whole selection |
| `Anchor.OwnPlaceCapped` | live/src/lib/comment-anchor.ts:145-156 | a place is listed for the quote taken there if and only if it is among the first 500 strict occurrences |
| `CaptureLimits.BeyondCapNotFound` | live/src/lib/comment-anchor.ts:145-156 | of more than 500 equal letters, one behind the first 500 is not listed for the quote it is |
| `Anchor.OwnPlaceEligible` | live/src/lib/comment-anchor.ts:375-399 | on unchanged text the place a quote was captured at is eligible, listed once, scores in full and is never conflicting, also when the quote has blanks at its ends; captured at a place within the cap on occurrences, with the windows of `OwnPlaceAgrees` |
| `Anchor.OwnPlacePicked` | live/src/lib/comment-anchor.ts:375-399 | the original place is picked if and only if no other eligible occurrence fits the context as well; otherwise nothing is picked |
| `Anchor.CaptureResolves` | live/src/lib/comment-anchor.ts:375-457 | a quote captured within the cap, with the windows of `OwnPlaceAgrees`, and without a rival resolves to exactly where it was taken, anchored and without doubt, whatever lines, version or diff come with it |
| `Anchor.UniqueHasNoRival` | live/src/lib/comment-anchor.ts:390-406 | a quote that occurs once in the text has no rival |
| `Anchor.CaptureResolvesWithoutLines` | live/src/lib/comment-anchor.ts:375-457 | without lines it is always anchored, exact unless ambiguous, and ambiguous if and only if it has a rival |
| `Anchor.CaptureResolvesOnLine` | live/src/lib/comment-anchor.ts:375-457 | in plain source text, with trusted lines that were not deleted and start on the line it is on, it is anchored without ambiguity on that line |
| `Anchor.CaptureThenResolve` | live/src/lib/comment-anchor.ts:536-546 | capture then resolve on unchanged text, for a selection of at most 2000 characters that occurs at most 500 times and before which no link is cut by the saved prefix: anchored, and either exactly the trimmed selection or flagged ambiguous |
| `Anchor.CutCaptureEligible` | live/src/lib/comment-anchor.ts:375-399 | wherever the saved prefix begins, inside a link or not, the place a quote was taken from, within the cap and with the window after it reaching the saved suffix, is eligible if and only if the text before it agrees with that prefix, and conflicting otherwise: the suffix side never disagrees |
| `Anchor.LongCaptureEligible` | live/src/lib/comment-anchor.ts:375-399 | the place of a longer selection's quote, within the cap and with no link cut by the saved prefix, is eligible if and only if the text after its first 2000 characters agrees with the suffix saved from after the whole selection, and conflicting otherwise |
| `CaptureLimits.LongSelectionConflicts` | live/src/lib/comment-anchor.ts:536-546 | a selection of 2100 characters whose quote conflicts at its own place |
| `Anchor.ViewRangeInView` | live/src/lib/comment-anchor.ts:465-486 | whatever a range in a view was found by, it is non-empty and inside the view's text |
| `AnchorStages.ViewOutcome` | live/src/lib/comment-anchor.ts:465-483 | a sure match in the view stands, and without lines any result there; else the text covered in the source is looked for in the view and reported with the source's lines and method, anchored only if both are; if either search fails the result in the view stands |
| `HtmlTextSpace.TagEndLoop` | live/src/lib/html-text-space.ts:103-111 | the loop finds the first `>` outside quoted attribute values |
| `HtmlTextSpace.HtmlSourceText` | live/src/lib/html-text-space.ts:70-119 | the tokenizer loop terminates and computes the specified text and offset map |
| `HtmlTextSpace.PagePlaced` | live/src/lib/html-text-space.ts:70-119 | the offset map is as long as the text, never goes back, and stays inside the source |
| `HtmlTextSpace.PageTextFrom` | live/src/lib/html-text-space.ts:70-119 | the text that comes from a source offset is exactly what the scanner shows there if it stops there, and nothing otherwise |
| `HtmlTextSpace.QuotedSkipped` | live/src/lib/html-text-space.ts:103-111 | a quoted attribute value is skipped as a whole, any `>` in it included |
| `HtmlTextSpace.OpenTagMeaning` | live/src/lib/html-text-space.ts:100-118 | an opening tag shows as a break exactly for a block element; the scan goes on right after it, or, for an element whose content is not page text, at the first closing tag of the same name, or at the end of the page if there is none |
| `HtmlPage.PageReads` | live/src/lib/html-text-space.ts:83-119 | any page printed from characters, decimal, hexadecimal and named references with or without semicolon, signs that start nothing, tags with any quoted or plain parts, declarations, comments, and hidden elements reads as the text of its pieces: characters and signs as they are, a reference as what it stands for, a block's tags as one newline between characters, and nothing else; and each character has the source offset of its own piece |
| `HtmlPage.PageLines` | live/src/lib/html-text-space.ts:121-137 | so each character of such a page is on the line its piece starts on |
| `HtmlPage.UnclosedCommentHides` | live/src/lib/html-text-space.ts:83-119 | a page that ends in a comment without an end reads as what is before it |
| `HtmlTextSpace.NothingBetween` | live/src/lib/html-text-space.ts:83-119 | nothing of what one step passes over (a tag, a comment, a script) shows in the page text |
| `HtmlTextSpace.LowerBound` | live/src/lib/html-text-space.ts:59-68 | the binary search returns the first index whose value is at least the one sought |
| `HtmlTextSpace.LineBySearch` | live/src/lib/html-text-space.ts:121-123 | searching the line starts equals counting newlines |
| `HtmlTextSpace.IndexRangeMeaning` | live/src/lib/html-text-space.ts:127-137 | for a first line of at least 1 (below that there is no range at all): a text index is in the range of lines a to b exactly when its line is one of them, and there is no range exactly when no text is on them |
| `HtmlTextSpace.PageRangeMeaning` | live/src/lib/html-text-space.ts:125-138 | the same for a whole page and a first line of at least 1, the range being non-empty and inside the text |
| `HtmlTextSpace.IndexRangeSearch` | live/src/lib/html-text-space.ts:127-133 | the code, with its two binary searches, computes the specified range |
| `HtmlTextSpace.LineSearch` | live/src/lib/html-text-space.ts:134-137 | the code, with its binary search over the line starts, computes the specified line |
| `HtmlTextSpace.OutsideThePage` | live/src/lib/html-text-space.ts:125-138 | an index before or behind the text counts as its first or last; an empty page has no lines, and lines below 1 have no range |
| `HtmlTextSpace.CharacterClasses` | live/src/lib/html-text-space.ts:22-57 | which characters are digits, hexadecimal digits, letters, and parts of a name |
| `HtmlTextSpace.CaseDoesNotMatter` | live/src/lib/html-text-space.ts:112-117 | a name is the same name in whatever case it is written |
| `HtmlTextSpace.EscapedPage` | live/src/lib/html-text-space.ts:83-119 | text escaped with `&amp;` and `&lt;` reads back as itself, each character at its escape |
| `HtmlTextSpace.EscapedLines` | live/src/lib/html-text-space.ts:121-138 | each of those characters is on the line it has in the text |
| `HtmlTextSpace.EscapedSpace` | live/src/lib/html-text-space.ts:125-138 | so the space of an escaped text has the text, and each character the line, of the plain source space |
| `HtmlTextSpace.PlainPage` | live/src/lib/html-text-space.ts:83-119 | a page without `&` and `<` reads as it is written |
| `Presence.SelectionQuoteLoop` | live/src/lib/presence.ts:147-153 | the two trimming loops compute the specified quote |
| `Presence.CaretQuoteLoop` | live/src/lib/presence.ts:156-165 | the loop that reaches back over blanks computes the specified quote |
| `Presence.CaretQuoteMeaning` | live/src/lib/presence.ts:156-165 | no quote exactly when the last 256 characters (or all before the caret) are blank; else it ends at the caret, has text, at most 256 characters, and beyond 24 only as far as needed |
| `Presence.PointerAtLoop` | live/src/lib/presence.ts:187-201 | the two walks to the ends of the word compute the specified pointer |
| `Presence.PointerMeaning` | live/src/lib/presence.ts:187-201 | a pointer is sent exactly when it touches a word; it quotes the maximal blank-free stretch of at most 32 characters on each side |
| `Presence.PointerLands` | live/src/lib/presence.ts:262-275 | a pointer whose word is found where it was lands on its own offset |
| `Presence.PointerRoundTrip` | live/src/lib/presence.ts:187-275 | sent and resolved on the same text, a pointer whose word can be told apart there (no rival, within the cap, prefix not begun inside a link) comes back to its own offset, with or without a source text |
| `Presence.CaretAfterLoop` | live/src/lib/presence.ts:241-250 | the loop over the blanks behind the quote computes the specified caret |
| `Presence.CaretLands` | live/src/lib/presence.ts:241-250 | a caret found where it was lands on its own offset if and only if at most 32 blanks follow it, and just before the last 32 otherwise |
| `Presence.CaretRoundTrip` | live/src/lib/presence.ts:156-250 | sent and resolved on the same text, any caret with a quote that can be told apart there, behind blanks or not, comes back to its own offset if and only if at most 32 blanks follow it, and just before the last 32 otherwise |
| `CaptureLimits.CaretGapConflicts` | live/src/lib/presence.ts:156-165 | the caret whose quote cannot: behind more blanks than three times the saved prefix is long, the quote conflicts at its own place |
| `Presence.SelectionLands` | live/src/lib/presence.ts:147-259 | in plain source text of the same version, a selection found where it was starts where it started; it ends where it ended if shorter than 256 characters, and a longer one is covered if and only if its last line is not the one the quote ends on |
| `Presence.SelectionRoundTrip` | live/src/lib/presence.ts:147-259 | sent and resolved on the same plain source text and version, a selection of any length that can be told apart there lands just so |
| `PresenceSends.PointerSent` | live/src/lib/presence.ts:187-201 | a pointer carries its version and its line, or 0 if the line is not known |
| `PresenceSends.SelectionSentWith` | live/src/lib/presence.ts:171-184 | for every space and either order of the ends: a blank selection is a caret at its end, not sent exactly if the 256 characters before it are blank; any other carries the lines of its first and last character |
| `PresenceSends.AskedFor` | live/src/lib/presence.ts:203-238 | the quote is looked for with the lines that were sent unless they are 0, and counts as stale exactly if both versions are known and differ |
| `PresenceSends.PointerPlaced` | live/src/lib/presence.ts:262-275 | a pointer lands as far into the word that was found as it was sent, but never past its end |
| `PresenceSends.SelectionPlaced` | live/src/lib/presence.ts:251-258 | a selection starts and ends with what was found; it reaches to the end of its last line exactly if its quote fills the cap, the version is its own, there is no source behind the view and it had more lines |
| `PresenceSends.PointerOnItsLine` | live/src/lib/presence.ts:187-275 | in plain source text of the same version, however often its word and what is around it occur, a pointer comes back to an occurrence on its own line |
| `PresenceSends.SelectionOnItsLine` | live/src/lib/presence.ts:171-259 | so does a selection that starts on the line its text starts on |
| `Throttle.ThrottledSender.Request` | live/src/lib/presence.ts:106-115 | the new state is the specified one, nothing is sent |
| `Throttle.ThrottledSender.Fire` | live/src/lib/presence.ts:99-104 | the new state is the specified one, one send is made now |
| `Throttle.EveryRun` | live/src/lib/presence.ts:95-122 | in every run a timer runs exactly when a request waits, due at the least of max(request time, last send + ms) over the waiting requests, and sends are at least the smallest delay asked for apart |
| `Throttle.PulledForward` | live/src/lib/presence.ts:106-115 | a request that may go out sooner replaces the timer, any other leaves it alone |
| `Throttle.RequestServed` | live/src/lib/presence.ts:95-122 | no uncancelled request is forgotten: a send follows it, or one is pending no later than the request allows |
| `Sse.ToLfByChunk` | live/src/lib/sse.ts:24-26 | normalising line endings chunk by chunk equals normalising the whole if and only if the cut does not split a CR LF pair |
| `Sse.SseParser.Feed` | live/src/lib/sse.ts:20-45 | one chunk hands on exactly the complete blocks and leaves the rest in the buffer |
| `Sse.FeedAllIsWhole` | live/src/lib/sse.ts:20-45 | any cutting that splits no CR LF pair gives the events and the leftover of the uncut stream |
| `Sse.ChunkIndependence` | live/src/lib/sse.ts:20-45 | two such cuttings of one stream cannot be told apart |
| `Sse.LeftoverIncomplete` | live/src/lib/sse.ts:24-44 | what is left over never contains a blank line |
| `Sse.RoundTrip` | live/src/lib/sse.ts:20-45 | printed events, with any of the three line endings and any such cutting, are read back as exactly that list with nothing left |
| `SseLines.LineKind` | live/src/lib/sse.ts:30-40 | every line is a comment, a field name alone, or a field with a value |
| `SseLines.BlockSays` | live/src/lib/sse.ts:28-42 | for every block: its comments are handed on as they stand, then one frame if it names an event or has data, with the last name given or `message` and the values of all data lines; all other fields are skipped |
| `Sse.SplitPairEndsBlock` | live/src/lib/sse.ts:24-26 | a cut inside the CR LF after a first line ends the block there |
| `Sse.SplitPairChangesFrames` | live/src/lib/sse.ts:24-26 | so such a cut turns one frame of two data lines into two frames |
| `SseCuts.SplitCutEvents` | live/src/lib/sse.ts:20-45 | the events of any cut inside a CR LF pair, and of the uncut stream: the cut closes an open block and hands it on as it stands, and changes nothing else |
| `SseCuts.SplitCutHarmless` | live/src/lib/sse.ts:20-45 | such a cut changes the events if and only if it interrupts a block whose lines before and after it do not say the same apart as together |
| `SseChunks.ChunkEvents` | live/src/lib/sse.ts:20-45 | the events of any list of chunks, however many cuts split a pair: each such cut closes the open block, hands it on as it stands, and reading starts afresh |
| `SseChunks.ChunksHarmless` | live/src/lib/sse.ts:20-45 | any number of such cuts leave the events of the stream unchanged if and only if each of them is harmless, given what follows it uncut: no two wrongs cancel out |
| `ImageCache.DriveImageCache.Hold` | live/src/lib/drive-image-cache.ts:38-41 | takes a hold and stops the idle timer; the invariant stays |
| `ImageCache.DriveImageCache.Release` | live/src/lib/drive-image-cache.ts:43-53 | gives up a hold; the last one revokes a retired URL or starts the idle timer; the invariant stays |
| `ImageCache.DriveImageCache.Set` | live/src/lib/drive-image-cache.ts:106-112 | stores a value, retiring what it replaces; the invariant stays |
| `ImageCache.DriveImageCache.Delete` | live/src/lib/drive-image-cache.ts:114-118 | removes a key, retiring its value; the invariant stays |
| `ImageCache.DriveImageCache.Fire` | live/src/lib/drive-image-cache.ts:55-65 | the idle callback evicts and revokes; the invariant stays |
| `ImageCache.StepKeeps` | live/src/lib/drive-image-cache.ts:31-119 | every step keeps the lifetime invariant |
| `ImageCache.StepRevokesOnce` | live/src/lib/drive-image-cache.ts:31-119 | a URL a step revokes was in use until then, was never revoked before and has no holder |
| `ImageCache.ObjectUrlLifetimes` | live/src/lib/drive-image-cache.ts:31-119 | in every run: no held URL is revoked, none twice, an unrevoked one is cached or retired with a holder but not both, and a cached one without holder has a timer that will evict it |
| `ImageCache.HoldsBalance` | live/src/lib/drive-image-cache.ts:38-53 | in every run the holders of a URL are the holds of the history not released yet, and no others |
| `ImageCache.CachedIsLastStored` | live/src/lib/drive-image-cache.ts:93-118 | what is cached under a key is the last value stored there, not deleted since |
| `ImageCache.DriveImageCache.GetFresh` | live/src/lib/drive-image-cache.ts:98-104 | answers exactly with a settled entry that never expires or has more than five minutes left |
| `ImageCache.NothingLeaks` | live/src/lib/drive-image-cache.ts:31-119 | once nothing is held and no timer is left, every owned URL has been revoked exactly once |
| `Comments.PreservePendingLoop` | live/src/hooks/use-comments.ts:139-175 | the merge loop over the refetched list computes the specified list |
| `Comments.NoIdTwice` | live/src/hooks/use-comments.ts:72-175 | in a well-formed list no id occurs twice among roots and replies |
| `Comments.AddKeeps` | live/src/hooks/use-comments.ts:91-108 | adding keeps the list well formed and lists the new comment exactly when its root is there |
| `Comments.RemoveKeeps` | live/src/hooks/use-comments.ts:72-89 | removing keeps the list well formed and takes out just that comment |
| `Comments.ReplaceKeeps` | live/src/hooks/use-comments.ts:110-137 | the saved comment takes the pending one's place; one that a refetch already brought is not listed twice |
| `Comments.RefetchKeeps` | live/src/hooks/use-comments.ts:139-175 | a refetch lists all the server has and all comments still pending; a saved comment the server lacks stays if and only if the server lacks its root too and a reply is pending in its thread; nothing else is listed |
| `Comments.RefetchNewestFirst` | live/src/hooks/use-comments.ts:139-175 | with a list cached before, what a refetch leaves is newest first |
| `Comments.EveryRun` | live/src/hooks/use-comments.ts:319-372 | in every interleaving of add, refetch, success and failure ids stay unique and reply counts true |
| `Comments.PendingStaysListed` | live/src/hooks/use-comments.ts:319-372 | a pending comment stays listed until its own outcome |
| `Comments.SuccessLeavesSavedOnce` | live/src/hooks/use-comments.ts:319-372 | after success the saved comment is listed and the pending one is not, whether a refetch came before or after |
| `Comments.FailureUndoesAdd` | live/src/hooks/use-comments.ts:72-108 | a failed add with nothing in between leaves the list exactly as it was |
| `CommentEntries.AddedRoot` | live/src/hooks/use-comments.ts:91-96 | a new thread is shown first, all other comments as they were |
| `CommentEntries.AddedReply` | live/src/hooks/use-comments.ts:91-108 | a new reply is shown last in its thread, all other comments as they were |
| `CommentEntries.Removed` | live/src/hooks/use-comments.ts:72-89 | taking out a pending comment leaves all others with all their fields, in their order |
| `CommentEntries.CountAfter` | live/src/hooks/use-comments.ts:80-86 | a reply count goes down by one with the reply and never below zero |
| `CommentEntries.Replaced` | live/src/hooks/use-comments.ts:110-137 | after success the saved comment stands in the pending one's place with its own fields, or the pending one just goes if a refetch has brought the saved one; all others are as they were, in their order |
| `CommentEntries.Refetched` | live/src/hooks/use-comments.ts:139-175 | the merge loop in closed form: the pending threads, the server's threads with the replies still pending behind their own, and the saved threads put back, sorted newest first |
| `CommentUndo.RefetchTraces` | live/src/hooks/use-comments.ts:139-175 | removing a pending comment after a refetch or before it gives the same list if and only if the refetch does not put a thread that the server lacks back for the sake of this comment alone |
| `CommentUndo.FailedAddLeavesNoTrace` | live/src/hooks/use-comments.ts:319-372 | an add, any adds, refetches, successes and failures of others, then its failure: the list is what those steps alone would have made it, unless a refetch in between put a thread back for its sake alone |
| `CommentResolve.RollbackRestores` | live/src/hooks/use-comments.ts:428-455 | resolve or reopen of a root or reply followed by the error step restores both lists if and only if the thread is first among those of its age in each list, and a root taken out of one list shows the same thread in the other |
| `CommentMarks.AllListMarked` | live/src/hooks/use-comments.ts:31-46 | resolving or reopening gives the comment with that id that resolution in the list of all, and leaves every other comment, field and place as it was |
| `CommentMarks.ResolvedRootLeaves` | live/src/hooks/use-comments.ts:48-59 | in the list of unresolved threads a resolved root's thread goes; all others stay as they are, in order |
| `CommentMarks.ResolvedReplyStays` | live/src/hooks/use-comments.ts:48-59 | a resolved reply is only marked there |
| `CommentMarks.ReopenedStays` | live/src/hooks/use-comments.ts:48-60 | a reopened comment that is in that list, or is the root of no loaded thread, is only marked |
| `CommentMarks.ReopenedComesIn` | live/src/hooks/use-comments.ts:60-70 | a reopened thread that only the list of all has comes in, unresolved and otherwise as it is there, first among those of its age; nothing else changes |
| `CommentMarks.OpenAfterResolve` | live/src/hooks/use-comments.ts:435-437 | after a resolve of any comment the list of unresolved threads has no thread of that root |
| `CommentMarks.OpenAfterReopen` | live/src/hooks/use-comments.ts:435-437 | after a reopen it shows the thread, unresolved, if and only if one of the two lists had it |
| `CommentMarks.RootRestored` | live/src/hooks/use-comments.ts:196-204 | rolling back gives a root its three resolution fields from before and leaves all other fields as they are now |
| `CommentMarks.ReplyRestored` | live/src/hooks/use-comments.ts:205-217 | the same for a reply, and no other comment of its thread changes |
| `CommentMarks.RestoredList` | live/src/hooks/use-comments.ts:181-223 | after a rollback the list has the restored thread and, as they are, all threads with other roots, newest first |
| `CommentResolve.ReplySurvivesRollback` | live/src/hooks/use-comments.ts:181-223 | a reply added in between survives the rollback in both lists and is all that changes, if and only if the thread is first among those of its age in each list, and, where a root was taken out of the unresolved list, the other list shows the same thread or, lacking it, the reply is not to that thread |
| `CommentResolve.ReplyLostInRollback` | live/src/hooks/use-comments.ts:181-223 | the input that loses it: only the unresolved list is loaded, its only thread is resolved, a reply to it is added, and the rejection puts back the list from before the reply |
| `CommentRuns.EveryRun` | live/src/hooks/use-comments.ts:228-455 | in every order of adds, fetches of either list, resolves, reopens, and their answers, both lists stay well formed, without any comment twice |
| `CommentRuns.PhantomsOfRun` | live/src/hooks/use-comments.ts:319-455 | a run shows a comment as pending whose answer has come if and only if one of its rejections puts back a remembered thread that has such a comment and that neither list has any more |
| `CommentRuns.PhantomStays` | live/src/hooks/use-comments.ts:139-175 | such a comment stays through every fetch, add and answer to an add: only another resolve or its rejection can take it away |
| `CommentRuns.SavedReplyComesBackPending` | live/src/hooks/use-comments.ts:428-455 | the input that shows one: only the unresolved list is loaded, a thread with a pending reply is resolved, the reply is saved, and the resolve is rejected |
| `Bridge.HtmlCommentBridge.Listen` | live/src/lib/html-comment-bridge.ts:115-138 | a message changes the state and hands on events exactly as specified |
| `Bridge.HtmlCommentBridge.Loaded` | live/src/lib/html-comment-bridge.ts:104-107 | a load ends the session unless a hello came since the last one |
| `Bridge.HtmlCommentBridge.RunCallback` | live/src/lib/html-comment-bridge.ts:131-135 | the scheduled callback clears the pending text, and hands it on exactly when the session is open and the bridge is not disposed |
| `Bridge.HtmlCommentBridge.DisposeBridge` | live/src/lib/html-comment-bridge.ts:144-148 | sets the flag that takes the listeners off, and hands nothing on |
| `Bridge.SessionNext` | live/src/lib/html-comment-bridge.ts:92-138 | how one more event opens, keeps or ends a session, read off the event history alone |
| `Bridge.EveryRun` | live/src/lib/html-comment-bridge.ts:92-149 | in every run the four variables mean what the history says: session open, hello fresh, pending text the latest of the session with a callback scheduled |
| `Bridge.DeliveredOnlyInSession` | live/src/lib/html-comment-bridge.ts:92-149 | only `reset` is delivered outside a session or after dispose; delivered text is the latest of the session; `reset` comes exactly when a session ends |
| `Bridge.TextWaits` | live/src/lib/html-comment-bridge.ts:129-138 | a page text heard in a session that stays open is kept, or a later one of the session in its place, with a callback to come |
| `Bridge.TextDelivered` | live/src/lib/html-comment-bridge.ts:131-135 | so the next callback hands out exactly the latest text of the session: none is lost |
| `Bridge.HandedOut` | live/src/lib/html-comment-bridge.ts:98-138 | what every event other than a callback hands out, for every history: in an open session each selection, activate or hover message and each command exactly once, to each matching hello a host message, and a reset exactly when a session ends |
| `Bridge.OneCallbackAText` | live/src/lib/html-comment-bridge.ts:130-136 | a text schedules a callback exactly if it is heard in a session and none is waiting |
| `Bridge.CallbackClears` | live/src/lib/html-comment-bridge.ts:131-135 | a callback leaves no text waiting, and hands out nothing without one or after dispose |
| `Bridge.ResetsSeparated` | live/src/lib/html-comment-bridge.ts:98-103 | between two resets there is a matching hello |
| `Bridge.LoadKeepsFreshSession` | live/src/lib/html-comment-bridge.ts:104-107 | hosted after a load if and only if a matching hello came since the previous load and nothing ended it |
| `FileContent.QuotesDoNotMatter` | live/src/lib/file-content-cache.ts:38-50 | an ETag on one line that is not empty, weak or quoted and has no blanks at its ends is the same validator with and without quotes |
| `FileContent.WeakEtagsDoNotVouch` | live/src/lib/file-content-cache.ts:38-50 | weak, blank and absent ETags give no validator |
| `FileContent.ValidatorMeaning` | live/src/lib/file-content-cache.ts:38-43 | which validator an ETag gives: the one line between its quotes, or else the whole of it, without blanks at its ends; none for a weak or an empty one |
| `FileContent.ReusedBodyIsCurrent` | live/src/lib/file-content-cache.ts:64-83 | over any run, writes between stat and download included, a body reused for a stat is the text that stat described |
| `FileContent.OpenHandsBack` | live/src/lib/file-content-cache.ts:64-78 | after any run: an open keeps a cached entry, unchanged and without looking at the download, exactly if the stat has a validator and it is the entry's, and the entry's text is then the stat's; in every other case it leaves the download's text, line count and validator |
| `FileContent.OpenAfterSave` | live/src/lib/file-content-cache.ts:85-87 | a save replaces the text and the line count of a cached entry and clears its validator, so the first open after it, writes and saves in between or not, leaves the download |
| `FileContent.OpenAfterDrop` | live/src/lib/file-content-cache.ts:64-78 | so does the first open after an eviction |
| `FileContent.SavedTextNotReused` | live/src/lib/file-content-cache.ts:85-87 | a saved text is kept but never reused without a new download |
| `FileContent.QueryCache.EvictToBudget` | live/src/lib/file-content-cache.ts:108-132 | the two loops remove exactly the specified victims |
| `FileContent.BudgetLaw` | live/src/lib/file-content-cache.ts:108-132 | only files that are closed, loaded and not the one being stored go, oldest first; what is left, summed over all other files, fits within ten million characters or no such file is left; and one victim fewer would not have been enough |
| `TreeRows.FlattenTree` | live/src/lib/tree-rows.ts:45-74 | the recursive visit terminates for every lookup and finite expanded set, and pushes the specified rows and expanded folders |
| `TreeRows.SortedOrder` | live/src/lib/tree-rows.ts:27-37 | a listing is shown folders first, then in name order |
| `TreeRows.TiesInListingOrder` | live/src/lib/tree-rows.ts:27-37 | names that the collation does not tell apart stay in the order of the listing |
| `TreeRows.RootOrder` | live/src/lib/tree-rows.ts:45-74 | among the rows of one folder, at every depth of the tree, folders come before files and each in name order |
| `TreeRows.EmptyFolders` | live/src/lib/tree-rows.ts:61-68 | an expanded folder that is loaded and empty shows one placeholder right after its row, one level down, and no other placeholder is shown |
| `TreeRows.RowIs` | live/src/lib/tree-rows.ts:55-58 | every row has the path of its parent and its name, its entry's kind, and is expanded exactly if it is a folder among the expanded ones |
| `TreeRows.ExpandedListed` | live/src/lib/tree-rows.ts:59-61 | the expanded folders are reported in the order of their rows, loaded or not |
| `TreeRows.DepthIsSlashes` | live/src/lib/tree-rows.ts:53-70 | depth is the number of slashes in the path, for every row |
| `TreeRows.RowKeysDistinct` | live/src/lib/tree-rows.ts:53-70 | no two rows have the same key |
| `TreeRows.SubtreeIsBlock` | live/src/lib/tree-rows.ts:53-70 | the rows inside an entry are exactly one contiguous block right after its row |
| `TreeRows.ChildrenShown` | live/src/lib/tree-rows.ts:53-70 | every entry of a shown, expanded and loaded folder has its row |
| `TreeRows.ShownFromListing` | live/src/lib/tree-rows.ts:53-70 | every row is an entry of the listing it was reached from, whose folder is shown and expanded |

## Left out

- React rendering, hooks, routing, TanStack Query's own machinery, `fetch`, signed URLs and toasts: a query-cache step is an atomic update of a list, a promise is a pending value.
- The spaces read from a live page (`dom-text-space.ts`, `html-view.ts`): they depend on browser objects. A space is any text with any two mappings; a source range outside the source text, which such a space could report, is taken to carry no quote.
- Surrogate pairs, and the context rule for a final sigma. Length-changing case folding is in the model of the anchor search (with the input where it fails), but the HTML scanner lower-cases one to one and ASCII only, so the index shift of `html.toLowerCase()` is not modelled.
- Anchor.CaptureThenResolve: where the saved prefix begins inside a link, or the selection has more than 2000 characters, `CutCaptureEligible` and `LongCaptureEligible` say exactly when its place is eligible, not what the comment then resolves to.
- Normalization.SliceNormalizesBack: for loose search with length-changing folding it holds only for stretches that do not cut a character; the condition is exact.
- Sse.ChunkIndependence: only for cuts that do not split a CR LF pair, because the code normalises each chunk on its own. `SseChunks.ChunksHarmless` says exactly when cuts that do split pairs change the events.
- Optimistic comments: a server snapshot is well formed, ids are fresh, and nobody replies to a comment that is not saved yet. Fields that no step looks at (author, text, line range) are one opaque value.
- How a drive, a path and a version are joined into an image cache key: keys are values.
- The memo of sorted listings by object identity: it cannot change a result, since a listing is never modified.
- `parseFrameMessage` (validation of one message) is the bridge's input type; sizes of rectangles and texts are not checked again.
- `groupSessions`, `docSessions`, presence colours and names, `commentAnchorInput`, `commentQuote`, `downloadFileText` and the query options of file content: short plumbing that would only add easy members.
- Server, core and FUSE code.
