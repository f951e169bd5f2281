# Meeting-minutes extractor: decisions and action items

The meeting-minutes app transcribes an uploaded recording, summarises it,
tags named entities and finally picks the **key decisions** and **action
items** out of the transcript text. That last step is the only logic the
repository owns, and it is what this project models:

1. the transcript is split into sentences at every run of spaces that
   follows `.`, `!` or `?` (`re.split(r"(?<=[.!?]) +", text)`);
2. each piece is lower-cased and tested for substring containment of a
   decision keyword (`decided`, `approved`, `agreed`, `finalized`) and,
   independently, of an action keyword (`will`, `need to`, `assign`,
   `schedule`, `send`, `review`);
3. a matching piece is stripped and appended to the decisions list, the
   action-items list, or both;
4. each list is rendered under its heading, as one `- item` line per entry
   or as a fixed fallback line when it is empty.

Modules:

- `PyStr` (`pystr.dfy`): the Python string built-ins used. `Lower` is
  ASCII lower-casing. `Strip` removes the characters for which `str.isspace`
  holds. `Contains` is the `k in s` scan.
- `SentenceSplit` (`splitter.dfy`): the split, written as a recursive
  function rather than a regular-expression engine. It comes with its
  shape lemmas, its reconstruction lemma and its inverse.
- `Extraction` (`extraction.dfy`): the keyword lists and the classifier.
  `Selected` is the filter that specifies the loop, and `Extract` is the
  loop itself: a method with `seq` accumulators.
- `Minutes` (`minutes.dfy`): the rendering loop `Render` and the whole
  section `Report`. The lines the section writes are returned in order.
- `Scenarios` (`scenarios.dfy`): worked transcripts (the empty one, two
  two-sentence ones, and one sentence matching both categories) and the
  substring-matching example.

The transcript text is a parameter. Where it comes from (upload, speech
recognition) is outside the model.

## Model

| member | source | states |
|---|---|---|
| `PyStr.LowerChar` | MMG.py:58 | `A`–`Z` map to `a`–`z`, each capital to its own lower-case letter; every other character is unchanged; lower-casing never turns whitespace into non-whitespace or back |
| `PyStr.Lower` | MMG.py:58 | `sentence.lower()` keeps the length and lower-cases each character in place |
| `PyStr.ContainsIff` | MMG.py:58 | the left-to-right scan `k in s` is true exactly when `k` occurs at some position of `s` |
| `PyStr.StripSlice` | MMG.py:59 | `strip()` keeps one slice of its input; everything dropped before and after it is whitespace; a non-empty slice starts and ends with non-whitespace |
| `PyStr.StripEdges` | MMG.py:59 | a stripped string has no whitespace at either end; it is empty exactly when the input is all whitespace |
| `PyStr.StripTrimmed` | MMG.py:59 | a string with no edge whitespace is left unchanged by `strip()` |
| `PyStr.StripIdempotent` | MMG.py:59 | stripping twice gives the same as stripping once |
| `PyStr.StripKeepsWord` | MMG.py:58-59 | a word without edge whitespace found in the lower-cased text is still found after the text is stripped |
| `PyStr.WordOfStripped` | MMG.py:58-59 | a word found in the lower-cased stripped text is found in the lower-cased text itself |
| `SentenceSplit.SkipSpaces` | MMG.py:57 | the greedy ` +` drops a maximal run of spaces: only spaces are dropped, and what is left does not start with one |
| `SentenceSplit.SplitSentences` | MMG.py:57 | the split always yields at least one piece; the first piece is empty exactly when the input is empty, and otherwise starts with the input's first character |
| `SentenceSplit.Collapse` | MMG.py:57 | the input with each boundary's run of spaces reduced to one space is never longer than the input |
| `SentenceSplit.JoinConsFirst` | MMG.py:57 | putting a character in front of the first piece puts it in front of the single-space join |
| `SentenceSplit.SplitRejoin` | MMG.py:57 | joining the pieces with single spaces gives back the input, with each run of spaces after `.`, `!` or `?` collapsed to one space |
| `SentenceSplit.CollapseKeepsSingleSpaces` | MMG.py:57 | text in which no `.`, `!` or `?` is followed by two spaces is left unchanged by collapsing |
| `SentenceSplit.SkipSpacesAppend` | MMG.py:57 | the greedy run of spaces at the front of `a + b` stays inside `a` when `a` does not end with a space |
| `SentenceSplit.CollapseAppend` | MMG.py:57 | collapsing is local: text cut after a character that is neither a space nor a terminal collapses piece by piece, as no boundary run crosses such a cut |
| `SentenceSplit.CollapseKeepsSegment` | MMG.py:57 | a segment with no terminal followed by two spaces, set between characters that are neither spaces nor terminals, comes through collapsing unchanged wherever it stands, so every space outside a boundary run is kept even when the rest of the text has long runs |
| `SentenceSplit.CollapseShortens` | MMG.py:57 | a terminal followed by two or more spaces makes the collapsed text strictly shorter |
| `SentenceSplit.CollapseUnchangedIff` | MMG.py:57 | collapsing leaves the text unchanged exactly when no terminal in it is followed by two spaces |
| `SentenceSplit.CollapseKeepsNonSpaces` | MMG.py:57 | collapsing removes spaces only: every other character is kept, in order, and none is added |
| `SentenceSplit.SplitPiecesEndTerminal` | MMG.py:57 | every piece but the last is non-empty and ends with `.`, `!` or `?` |
| `SentenceSplit.SplitPiecesHaveNoBoundary` | MMG.py:57 | no piece contains `.`, `!` or `?` followed by a space |
| `SentenceSplit.SplitLaterPiecesStart` | MMG.py:57 | every piece after the first starts with a non-space character, or is the empty last piece |
| `SentenceSplit.SplitIsWellSplit` | MMG.py:57 | the split's output has all three shape properties at once |
| `SentenceSplit.SplitNoBoundary` | MMG.py:57 | text with no terminal character followed by a space is a single piece, so trailing text without terminal punctuation is kept |
| `SentenceSplit.SplitFirstPiece` | MMG.py:57 | a piece ending in a terminal, followed by a single space and text that does not start with a space, is split off first |
| `SentenceSplit.SplitJoinRoundTrip` | MMG.py:57 | splitting the single-space join of well-shaped pieces gives those pieces back |
| `SentenceSplit.SplitUnique` | MMG.py:57 | the split is the only well-shaped list of pieces whose single-space join is the collapsed input |
| `SentenceSplit.SplitEmpty` | MMG.py:57 | the empty transcript splits into the one empty piece |
| `Extraction.ContainsAnyIff` | MMG.py:58 | `any(word in s for word in kws)` holds exactly when some keyword of the list is contained in `s` |
| `Extraction.Selected` | MMG.py:57-61 | a category's list is never longer than the number of pieces |
| `Extraction.SelectedSnoc` | MMG.py:57-61 | one more piece adds only its own contribution, at the end of the list |
| `Extraction.Extract` | MMG.py:55-61 | both lists start empty; the loop over the pieces leaves in each list exactly the stripped pieces whose lower-cased text contains one of that list's keywords, in transcript order |
| `Extraction.SelectedIndices` | MMG.py:55-61 | list entry `m` is the stripped text of a matching piece at position `idx[m]`; the positions strictly increase, so order is kept and nothing is reordered; every matching piece has its own entry, so nothing is deduplicated |
| `Extraction.SelectedMembership` | MMG.py:58-61 | a string is in a category's list if and only if some piece matches that category and strips to it |
| `Extraction.BuiltInKeywordsTrimmed` | MMG.py:58-60 | every built-in keyword is non-empty and has no whitespace at either end |
| `Extraction.StripKeepsMention` | MMG.py:58-61 | a piece that mentions a keyword still mentions it after stripping, because classification happens before `strip()` and the keywords have no edge whitespace |
| `Extraction.MentionOfStripped` | MMG.py:58-59 | a piece whose stripped text mentions a keyword also mentions it before stripping |
| `Extraction.OrderIrrelevant` | MMG.py:58-61 | with keywords that have no edge whitespace, testing each piece and then stripping it gives the same list as stripping every piece first and testing afterwards |
| `Extraction.SelectedEntriesClean` | MMG.py:58-61 | every entry is already stripped and, after lower-casing, still contains a keyword of its category |
| `Extraction.BothCategories` | MMG.py:58-61 | the two tests are independent: a piece that matches both keyword lists appears, stripped, in both lists |
| `Minutes.Bullets` | MMG.py:65-66 | one line per entry, `- ` followed by the entry, in list order |
| `Minutes.Render` | MMG.py:64-68 | an empty list renders exactly as its fallback line; a non-empty list renders as one `- item` line per entry, in order |
| `Minutes.Report` | MMG.py:55-75 | the section writes the decisions heading, the decisions listing, the action-items heading and the action-items listing for the extractor's two lists |
| `Minutes.ListingFallbackIffEmpty` | MMG.py:64-68 | when the fallback is not a bullet line, it is written exactly when the list is empty |
| `Minutes.UnlistBullets` | MMG.py:65-66 | reading the bullet lines back gives the list |
| `Minutes.ListingRoundTrip` | MMG.py:64-75 | reading a category's rendered lines back gives its list, whether it was empty or not |
| `Minutes.FallbacksAreNotBullets` | MMG.py:68-75 | neither `No clear decisions detected.` nor `No clear action items detected.` begins with `- ` |
| `Minutes.MinutesSections` | MMG.py:63-75 | the section is heading, listing, heading, listing. Each listing reads back to its category's list, and is the fallback line exactly when that list is empty |
| `Scenarios.EmptyTranscript` | MMG.py:55-75 | an empty transcript gives two empty lists, so the section is the two headings, each followed by its fallback line |
| `Scenarios.NothingInEmpty` | MMG.py:57-61 | the single empty piece matches no non-empty keyword, so it adds nothing to a list |
| `Scenarios.SplitDecisionTranscript` | MMG.py:57 | `We decided to proceed. The budget is $500.` splits into its two sentences |
| `Scenarios.DecisionTranscript` | MMG.py:58-59 | its first sentence is listed as a decision, by `decided` |
| `Scenarios.SplitActionTranscript` | MMG.py:57 | `John will send the report. Mary will review it.` splits into its two sentences |
| `Scenarios.ActionTranscriptFirst` | MMG.py:60-61 | its first sentence is listed as an action item, by `will` |
| `Scenarios.ActionTranscriptSecond` | MMG.py:60-61 | its second sentence is listed as an action item, by `will` |
| `Scenarios.SplitDualMatchTranscript` | MMG.py:57 | `We agreed and John will schedule the follow-up.` is a single piece |
| `Scenarios.DualMatchTranscriptDecision` | MMG.py:58-59 | that sentence is listed as a decision, by `agreed` |
| `Scenarios.DualMatchTranscriptAction` | MMG.py:60-61 | the same sentence is also listed as an action item, by `will` |
| `Scenarios.SplitTwoSentences` | MMG.py:57 | two boundary-free sentences, the first ending with a terminal, joined by one space, split back into those two sentences |
| `Scenarios.ListedByKeyword` | MMG.py:58-61 | a trimmed piece in which a lower-case keyword stands at some position is listed, unchanged, in that keyword's category |
| `Scenarios.WillowIsAnAction` | MMG.py:60 | `Willow` counts as an action item because `will` is found inside it: matching is by substring, not by whole word |

## Left out

- Everything before the extractor in `MMG.py` is outside the model: the web-page setup, titles and display calls, and the upload widget with its extension filter. So are the temporary file the upload is written to, and the speech-recognition, summarisation and entity-tagging models. They are user interface, file I/O or calls into pretrained models whose code is not part of this model. The transcript is treated as an arbitrary string.
- Rendering to the page is modelled as the sequence of lines written, in order. Markdown formatting is not modelled.
- PyStr.Lower: lower-cases ASCII letters only. Python's `str.lower` applies full Unicode case mapping, which can also change the length of a string. Matching results for non-ASCII text may therefore differ.
- SentenceSplit.SplitSentences: implements only this one lookbehind pattern, not a general regular-expression engine.
- `re.split` returns `['']` for an empty transcript. That one empty piece matches no keyword, so both lists stay empty (`Scenarios.EmptyTranscript`).
- Only the space character splits; a tab or newline after `.`, `!` or `?` does not.
- Each piece is classified before it is stripped. `Extraction.OrderIrrelevant` shows that, for the built-in keywords, stripping first would give the same lists.
- The worked transcripts in `Scenarios` are split exactly. Their lists are shown to contain the expected sentences, but not that nothing else is in them: evaluating the negative keyword tests on literal strings costs the verifier too much. For any input, `Extraction.SelectedMembership` states which sentences are listed.
