# Clarity Notes: a verified model of its note logic

Clarity Notes is a browser note-taking app. This project models its core in Dafny:
- the heuristic text analysis in `src/utils/aiHelpers.ts`:
  - the tokenizer and stopword filter;
  - the extractive summary;
  - tag suggestion;
  - the glossary;
  - the two annotation passes that wrap glossary terms and grammar hints in `<span data-ai-mark=…>` elements;
- the editor action that runs those passes (`EditorArea.tsx`);
- the note collection and its handlers on the main page (`Index.tsx`);
- the derived views and dialogs:
  - the sidebar ordering;
  - the version history list;
  - the translate dialog's text-to-paragraph conversion and button rules;
  - the insights panel's bullet extraction.

The modules follow the program:

| module | file | models |
|---|---|---|
| `JsText` | `jstext.dfy` | JavaScript's string operations. These are `\s`, `\b`, `trim`, `join`, `includes`, `>`, and `split` with a regular expression. |
| `Sorting` | `sorting.dfy` | The stable `Array.prototype.sort` with a comparator, and `slice(0, n)`. |
| `Tokenizer` | `tokenizer.dfy` | `tokenize` and the stopwords. |
| `Frequency` | `frequency.dfy` | The count tables and their top-N ranking. |
| `Summarizer` | `summarizer.dfy` | `summarizeText`. |
| `Keywords` | `keywords.dfy` | `suggestTags`, `buildGlossary` and `escapeRegExp`. |
| `Patterns` | `patterns.dfy` | The glossary and grammar regular expressions, and the pieces a global match cuts a text into. |
| `Dom` | `dom.dfy` | The parsed note body as a tree of nodes. |
| `TreeWalk` | `walk.dfy` | `walkTextNodes`. |
| `Annotator` | `annotator.dfy` | `applyGlossary`, `applyGrammar` and `applyAI`. |
| `NoteTypes` | `note.dfy` | The note record and the array operations on notes. |
| `IndexPage` | `index.dfy` | The page state as the class `NotesApp`, plus one specification function and one lemma per handler. |
| `Sidebar` | `sidebar.dfy` | The pinned-first, newest-first ordering. |
| `History` | `history.dfy` | The version history rows. |
| `Translate` | `translate.dfy` | `textToHtml`, the `disabled` rule, and the dialog state as the class `TranslateDialog`. |
| `Insights` | `insights.dfy` | Bullet extraction, and the panel state as the class `InsightsPanel`. |

Code that loops or mutates is a method or a class. Each is proved equal to a specification function, or to a state change stated through one:
- the `forEach` counting loop;
- the grammar loop;
- the tree walk;
- the page and dialog handlers.

The properties are proved as lemmas about those functions.

Three behaviours of the code deserve a note:
- **One rewrite per call.** `walkTextNodes` drives a `TreeWalker`, and the callback replaces the current text node. Once `replaceWith` has detached that node, `nextNode()` finds no parent and ends the walk (section 6.2 of the WHATWG DOM standard). So each `applyGlossary` or `applyGrammar` call rewrites at most the first eligible text that has a match. The model does exactly that: `TreeWalk.WalkSpec` and `TreeWalk.WalkProgress` state it.
- **Sort ties.** The sidebar and history comparators `(a, b) => (b.x > a.x ? 1 : -1)` are not consistent on equal stamps. The model uses the stable order for them. Every property about order is stated either as "no later entry is newer" or under pairwise different stamps, which is where the source's order is determined.
- **Record fields.** `types/note.ts` declares neither `versions`, `encrypted` nor `encData`, and `NoteVersion` is not defined in it. `Index.tsx` reads and writes all of them, so the model's `Note` and `NoteVersion` carry them as the page uses them.

## Model

| member | source | states |
|---|---|---|
| Tokenizer.Tokenize | src/utils/aiHelpers.ts:9-15 | Every token is non-empty and made only of `a`-`z`, `0`-`9` and apostrophes. |
| Tokenizer.SplitJoined | src/utils/aiHelpers.ts:13-14 | Splitting a space-joined list of tokens on whitespace and dropping empty pieces gives the list back. |
| Tokenizer.TokenizeIdempotent | src/utils/aiHelpers.ts:9-15 | Tokenizing the space-joined tokens of a text gives the same tokens. |
| Tokenizer.ContentWords | src/utils/aiHelpers.ts:17-21 | The content words are tokens of the input that are not stopwords. |
| Tokenizer.KeywordCandidates | src/utils/aiHelpers.ts:48 | The candidates are tokens of the input that are not stopwords and are longer than the bound. |
| Frequency.CountFrequencies | src/utils/aiHelpers.ts:31-32 | The `forEach` loop builds exactly the table `Tally` of the tokens. |
| Frequency.TallyCounts | src/utils/aiHelpers.ts:31-32 | The table is well formed. Each token's count is its number of occurrences. The keys are exactly the tokens present. |
| Frequency.TallyFirstOccurrence | src/utils/aiHelpers.ts:51 | `Object.entries` lists the keys in the order of their first occurrence, each once. |
| Frequency.ByCountOrder | src/utils/aiHelpers.ts:52 | The comparator `b[1] - a[1]` is a strict weak order. |
| Frequency.TopKeysSound | src/utils/aiHelpers.ts:51-54 | At most `n` keys are chosen, each once and each a token of the input. |
| Frequency.TopKeysOrder | src/utils/aiHelpers.ts:52-53 | Counts never increase along the result. Keys with equal counts keep first-occurrence order. |
| Frequency.TopKeysComplete | src/utils/aiHelpers.ts:53 | A token left out means exactly `n` keys were chosen, each occurring at least as often as it. |
| Sorting.SortDesc | src/utils/aiHelpers.ts:39 | The sorted list is a permutation of its input. |
| Sorting.SortDescDescending | src/utils/aiHelpers.ts:39 | No later element sorts before an earlier one. |
| Sorting.SortDescStable | src/utils/aiHelpers.ts:52 | Every class of tied elements keeps its input order. |
| Sorting.SortDescTieOrder | src/utils/aiHelpers.ts:39 | Of two tied distinct elements, the one earlier in the input comes first. |
| Sorting.Take | src/utils/aiHelpers.ts:41 | The result is the first `min(n, length)` elements. |
| Summarizer.SummarizeText | src/utils/aiHelpers.ts:23-45 | The method returns `Summary(text, maxSentences)`. When sentences have to be ranked, it requires that `constructor` is not a content word of the text. |
| Summarizer.NonBlank | src/utils/aiHelpers.ts:26 | The kept sentences are pieces of the split that are not blank. |
| Summarizer.SingleSentence | src/utils/aiHelpers.ts:24-26 | Text without `.`, `!` or `?` is one sentence, or none when it is blank. |
| Summarizer.PiecesEndInPunctuation | src/utils/aiHelpers.ts:25 | Each piece but the last ends with `.`, `!` or `?`. |
| Summarizer.SumCountsIsTotal | src/utils/aiHelpers.ts:36 | A sentence's score numerator is the text-wide count of its content words. |
| Summarizer.OutranksOrder | src/utils/aiHelpers.ts:36-39 | Comparing `sum/len` scores exactly, by cross-multiplying, is a strict weak order. |
| Summarizer.RankedProperties | src/utils/aiHelpers.ts:30-39 | The ranking is a permutation of the scored sentences, and each entry is that sentence with its exact score. Scores never increase along it. |
| Summarizer.RankedTieOrder | src/utils/aiHelpers.ts:39 | Sentences with equal scores keep their order in the text. |
| Summarizer.SummaryShort | src/utils/aiHelpers.ts:24-27 | A text without `.`, `!` or `?` is summarised as the text itself, trimmed, whenever at least one sentence is asked for. |
| Summarizer.SummaryLong | src/utils/aiHelpers.ts:39-44 | Otherwise the summary is the first `maxSentences` of the ranking, and no sentence left out outranks one chosen. |
| Keywords.SuggestTags | src/utils/aiHelpers.ts:47-55 | The method returns `Tags(text, count)`. |
| Keywords.TagsSound | src/utils/aiHelpers.ts:47-55 | At most `count` distinct tags, each a non-stopword token of the text longer than three characters. |
| Keywords.BuildGlossary | src/utils/aiHelpers.ts:69-84 | The method returns `GlossaryFor(text, limit)`. |
| Keywords.DefineAll | src/utils/aiHelpers.ts:78-82 | The loop that sets each chosen term to its definition computes `Defined(top, Definition)`. |
| Keywords.DefinedTerms | src/utils/aiHelpers.ts:78-82 | Setting distinct terms lists them in order, and maps each one to its definition. |
| Keywords.GlossaryProperties | src/utils/aiHelpers.ts:69-84 | At most `limit` distinct terms, each a non-stopword token longer than four characters. Each maps to its built-in definition or to the fallback. `api` never appears. |
| Keywords.EscapeRegExpIdentity | src/utils/aiHelpers.ts:180-182 | As written, the escape changes nothing in a string without a backslash. |
| Keywords.EscapeRegExpLeavesDot | src/utils/aiHelpers.ts:181 | As written, the escape leaves `a.b` unescaped. |
| Keywords.UnescapeEscapeMeta | src/utils/aiHelpers.ts:180-182 | The intended escape is read back by a regular expression as the string itself. |
| Keywords.EscapeMetaIdentity | src/utils/aiHelpers.ts:180-182 | The intended escape is the identity on strings without metacharacters. |
| Keywords.EscapeMetaDot | src/utils/aiHelpers.ts:181 | The intended escape turns `a.b` into `a\.b`. |
| Keywords.EscapeAgreesOnTokens | src/utils/aiHelpers.ts:104 | On a token, the escape as written and the intended one both return the token. |
| Patterns.TermAt | src/utils/aiHelpers.ts:104 | A glossary alternative matches only up to a word boundary. |
| Patterns.RepeatedWordAt | src/utils/aiHelpers.ts:137 | A repeated-word match starts and ends at word boundaries. |
| Patterns.LoneIAt | src/utils/aiHelpers.ts:138 | A standalone `i` match starts and ends at word boundaries. |
| Patterns.DoubleSpaceAt | src/utils/aiHelpers.ts:139 | A run of spaces never starts or ends inside a word. |
| Patterns.FirstHitSpec | src/utils/aiHelpers.ts:151-152 | `exec` from `lastIndex` finds the first position with a match, or nothing exactly when no later position matches. |
| Patterns.ScanCovers | src/utils/aiHelpers.ts:110-124 | The pieces cover the text contiguously and spell it out in order. |
| Patterns.ScanMatches | src/utils/aiHelpers.ts:111-122 | Marked pieces are exactly matches. No match starts inside a plain piece. Plain pieces are never adjacent. |
| Patterns.ScanClean | src/utils/aiHelpers.ts:111-122 | No piece starts or ends in the middle of a word. |
| Patterns.ScanGapsHaveNoHit | src/utils/aiHelpers.ts:110-124 | A plain piece taken on its own holds no match. |
| Dom.TextContentAppend | src/utils/aiHelpers.ts:3-7 | The text of two runs of siblings is the text of the first, then the second. |
| Dom.BlockedHasNoEligible | src/utils/aiHelpers.ts:91 | Nothing below `code`, `pre` or a marked element is handed to a pass. |
| TreeWalk.FirstRewritable | src/utils/aiHelpers.ts:89-94 | The position found is that of the first eligible text the pass rewrites, or the end. |
| TreeWalk.WalkEffect | src/utils/aiHelpers.ts:86-96 | The walk replaces something exactly when some eligible text has a match. It is then the first such text. Otherwise the tree is unchanged. |
| TreeWalk.WalkKeepsText | src/utils/aiHelpers.ts:86-96 | With a rewrite that keeps text, the walk keeps the text of the whole tree. |
| TreeWalk.CountRespliced | src/utils/aiHelpers.ts:125 | Replacing the first rewritable text by texts that are not rewritable lowers the number of rewritable texts by one. |
| TreeWalk.WalkProgress | src/utils/aiHelpers.ts:86-96 | After a walk that replaces, one eligible text fewer has a match. |
| Annotator.Span | src/utils/aiHelpers.ts:114-118 | A span is a `span` element marked `data-ai-mark`, holding exactly the matched text. |
| Annotator.RewriteKeepsText | src/utils/aiHelpers.ts:109-124 | The fragment holds the node's text unchanged, spread over text nodes and spans. |
| Annotator.RewritePieces | src/utils/aiHelpers.ts:109-124 | The fragment has one node per piece of the scan: a span per match and a text node per gap. |
| Annotator.RewriteSettles | src/utils/aiHelpers.ts:91 | No text the fragment leaves eligible would be rewritten again by the same pass. |
| Annotator.GlossaryNode | src/utils/aiHelpers.ts:106-126 | The glossary callback's loop computes `Rewrite` of the glossary pass. |
| Annotator.EarliestMatch | src/utils/aiHelpers.ts:149-156 | The loop over the three patterns finds the earliest match, with `-1` exactly when there is none. |
| Annotator.GrammarEarliest | src/utils/aiHelpers.ts:150-156 | The earliest over the patterns equals the first match of the combined grammar matcher, with earlier patterns winning ties. |
| Annotator.GrammarNode | src/utils/aiHelpers.ts:142-175 | The grammar callback's `while` loop computes `Rewrite` of the grammar pass, replacing the node only when something matched. |
| Annotator.WalkTextNodes | src/utils/aiHelpers.ts:86-96 | The iterative walk over the children computes `Walk`. |
| Annotator.WalkNode | src/utils/aiHelpers.ts:89-94 | One visited node yields what `Walk` does with it: the callback's fragment for an eligible text, the element with rewritten children, or nothing. |
| Annotator.PassRewrites | src/utils/aiHelpers.ts:91 | Both passes keep text and settle. |
| Annotator.TitleOfMatch | src/utils/aiHelpers.ts:117 | A glossary match in lower case is a term, and the span's title is that term's definition. |
| Annotator.GlossarySpans | src/utils/aiHelpers.ts:114-119 | Every glossary span has the class `glossary-term`, `data-ai-mark="glossary"` and the definition as its title. It wraps one text whose lower case is a term. |
| Annotator.LongerOrder | src/utils/aiHelpers.ts:103 | "Longer first" is a strict weak order. |
| Annotator.ApplyGlossary | src/utils/aiHelpers.ts:98-129 | The method computes `Glossed`. |
| Annotator.ApplyGrammar | src/utils/aiHelpers.ts:131-178 | The method computes `Corrected`. |
| Annotator.AlternativesOfEscaped | src/utils/aiHelpers.ts:104 | The escaped terms, read as alternatives of a pattern, match exactly the terms themselves. |
| Annotator.PatternTerms | src/utils/aiHelpers.ts:103-104 | The pattern's alternatives are a permutation of the keys, longest first, with keys of equal length in insertion order. |
| Annotator.GlossedProperties | src/utils/aiHelpers.ts:98-129 | An empty map returns the input. Otherwise there is one walk: text is unchanged, and one text fewer has a match. |
| Annotator.CorrectedProperties | src/utils/aiHelpers.ts:131-178 | The grammar pass is one walk: text is unchanged, and one text fewer has a match. |
| Annotator.ApplyAI | src/components/notes/EditorArea.tsx:38-47 | The method computes `Annotated`: glossary of the plain text, then the glossary pass, then the grammar pass. |
| Annotator.TokenPattern | src/components/notes/EditorArea.tsx:42-43 | A glossary built from tokens yields its own terms, longest first, each with its definition. |
| Annotator.AnnotatedProperties | src/components/notes/EditorArea.tsx:38-47 | Annotating never changes the note's text, and every pattern term carries its definition. |
| NoteTypes.Filter | src/pages/Index.tsx:65 | The result is no longer than the input, and holds only kept elements of it. |
| NoteTypes.FilterCount | src/pages/Index.tsx:40-43 | Each kept element occurs as often as in the input. Others do not occur. |
| NoteTypes.Find | src/pages/Index.tsx:46 | The result satisfies the test. There is none exactly when no element does. |
| NoteTypes.FindFirst | src/pages/Index.tsx:46 | The element found is at the first index satisfying the test. |
| NoteTypes.FilterAt | src/pages/Index.tsx:65 | Filtering a list cut in two is filtering each part and concatenating, so kept elements stay in order. |
| NoteTypes.MapId | src/pages/Index.tsx:70 | Exactly the notes with the id are transformed, and the others are kept. |
| NoteTypes.MapIdFind | src/pages/Index.tsx:80-90 | After mapping, the first note with the id is the transformed first note with it. |
| IndexPage.CreateProperties | src/pages/Index.tsx:48-62 | The new note is in front, with its title and content from `initial` or "". It is not pinned, has no tags or versions, and has `createdAt == updatedAt`. It is current. |
| IndexPage.DeleteProperties | src/pages/Index.tsx:64-67 | Exactly the notes with the id go, and the others keep their multiplicity and their order: deleting from a list cut anywhere is deleting from each part. Deleting the selected note clears the selection. Any other selection is kept. |
| IndexPage.ToggleProperties | src/pages/Index.tsx:69-71 | Only the notes with the id flip `pinned` and get a new `updatedAt`. Toggling twice restores every pin. |
| IndexPage.UpdateProperties | src/pages/Index.tsx:78-91 | With no current note nothing changes. Otherwise only notes with the current id change: the patch's fields (title, content, `encrypted`, `encData`, `summary`) override and `updatedAt` is refreshed. A version of the old title and content is added exactly when `snapshot` holds and the note is not encrypted. |
| IndexPage.LockProperties | src/pages/Index.tsx:93-111 | Locking stores the cipher text, empties the content and keeps a version. Unlocking restores the decrypted content. A cancelled prompt, an empty prompt or a failed decryption changes nothing. |
| IndexPage.RestoreProperties | src/pages/Index.tsx:113-119 | Restoring copies the first matching version's title and content, and adds no version. An unknown id changes nothing. |
| IndexPage.FilterProperties | src/pages/Index.tsx:37-44 | A blank query shows every note. Otherwise exactly the notes whose lower-cased title and text contain the lower-cased query are shown, each as often as before and in the order of the list: filtering a list cut anywhere is filtering each part. |
| IndexPage.GenerateProperties | src/pages/Index.tsx:208 | Generated insights set only the current note's `summary` and `updatedAt`, without a version. With no current note nothing changes. |
| IndexPage.TagsProperties | src/pages/Index.tsx:132-139 | Only the current note's tags change, to at most five distinct suggested tags of its plain text. |
| IndexPage.NotesApp.constructor | src/pages/Index.tsx:16-20 | The page starts with no notes, no selection, an empty query and both dialogs closed. |
| IndexPage.NotesApp.SetSearch | src/pages/Index.tsx:18 | Only the query changes. |
| IndexPage.NotesApp.Load | src/pages/Index.tsx:22-27 | The notes are the stored ones. The stored selection is taken only when it is non-empty and names a stored note. |
| IndexPage.NotesApp.CreateNote | src/pages/Index.tsx:48-62 | The new note goes in front and becomes selected. Nothing else changes. |
| IndexPage.NotesApp.DeleteNote | src/pages/Index.tsx:64-67 | The notes become `Deleted`, and the selection `SelectionAfterDelete`. |
| IndexPage.NotesApp.TogglePin | src/pages/Index.tsx:69-71 | The notes become `Toggled`, and the rest of the state is unchanged. |
| IndexPage.NotesApp.UpdateCurrent | src/pages/Index.tsx:78-91 | The notes become `UpdatedCurrent`, and the rest of the state is unchanged. |
| IndexPage.NotesApp.HandleGenerate | src/pages/Index.tsx:208 | The insights panel's `onGenerate` applies a summary-only patch without a snapshot, and the rest of the state is unchanged. |
| IndexPage.NotesApp.HandleLockToggle | src/pages/Index.tsx:93-111 | The notes become `LockToggled`. |
| IndexPage.NotesApp.HandleRestore | src/pages/Index.tsx:113-119 | The notes become `Restored`, and the history closes exactly when a version was found. |
| IndexPage.NotesApp.HandleTranslateReplace | src/pages/Index.tsx:121-125 | The current content is replaced with a snapshot, and the dialog closes when there is a current note. |
| IndexPage.NotesApp.HandleTranslateCreate | src/pages/Index.tsx:127-130 | A note titled `Translated: <title or Untitled>` is created and selected, and the dialog closes. |
| IndexPage.NotesApp.SyncTags | src/pages/Index.tsx:132-139 | The notes become `TagsSynced`, and the rest of the state is unchanged. |
| Sidebar.NewerNoteOrder | src/components/notes/NotesSidebar.tsx:19-20 | "Later `updatedAt` first" is a strict weak order. |
| Sidebar.OrderedProperties | src/components/notes/NotesSidebar.tsx:18-22 | The ordering is a permutation. Pinned notes come first, and exactly the first entries are pinned. Within each group `updatedAt` never increases. |
| Sidebar.OrderedStrict | src/components/notes/NotesSidebar.tsx:19-20 | With pairwise different stamps, each group is in strictly descending `updatedAt` order. |
| History.LaterOrder | src/components/notes/HistoryPanel.tsx:25 | "Later timestamp first" is a strict weak order. |
| History.Rows | src/components/notes/HistoryPanel.tsx:26-33 | One row per version, in order, headed by its title or `Untitled` when the title is empty. |
| History.PanelProperties | src/components/notes/HistoryPanel.tsx:11-34 | The placeholder shows exactly when there is no version. The rows are a permutation of the versions, no row newer than one above it. Each row restores its own version's id. |
| History.NewestStrict | src/components/notes/HistoryPanel.tsx:25 | With pairwise different timestamps, the rows are in strictly descending order. |
| JsText.TrimmedPiecesProperties | src/components/notes/InsightsPanel.tsx:21-22 | Kept pieces are non-empty, fully trimmed, and trimmed forms of the parts. None is kept exactly when all parts are blank. |
| JsText.SplitAvoids | src/components/notes/TranslateDialog.tsx:44 | When every character of a class starts a separator, no piece holds such a character. |
| JsText.SplitCovers | src/components/notes/TranslateDialog.tsx:44 | A character no separator swallows lies in some piece. |
| Translate.Paragraphs | src/components/notes/TranslateDialog.tsx:45 | One `<p>` element per line, in order. |
| Translate.LinesAvoid | src/components/notes/TranslateDialog.tsx:44 | Characters that occur in the text only as line feeds occur in no line. |
| Translate.LinesProperties | src/components/notes/TranslateDialog.tsx:43-46 | Lines are non-empty, trimmed and free of line feeds. There are none exactly when the text is blank. |
| Translate.TextToHtmlBlank | src/components/notes/TranslateDialog.tsx:43-46 | `textToHtml` gives "" exactly for empty or whitespace-only text. |
| Translate.TextToHtmlRoundTrip | src/components/notes/TranslateDialog.tsx:43-46 | For text without `<`, reading the paragraphs back gives the lines, none of them empty. |
| Translate.UnwrapParagraphs | src/components/notes/TranslateDialog.tsx:45 | Lines are inserted verbatim between `<p>` and `</p>`, so lines without `<` read back unchanged. |
| Translate.LabelsDistinct | src/components/notes/TranslateDialog.tsx:8-14 | Two target languages have the same label exactly when they are the same language. |
| Translate.TranslateDialog.Disabled | src/components/notes/TranslateDialog.tsx:30 | Translation is disabled exactly while loading or when the source text is only whitespace. |
| Translate.TranslateDialog.constructor | src/components/notes/TranslateDialog.tsx:26-28 | The dialog starts on Spanish, not loading, with no translation. |
| Translate.TranslateDialog.SetLang | src/components/notes/TranslateDialog.tsx:59 | Choosing a language changes only the language. |
| Translate.TranslateDialog.HandleTranslate | src/components/notes/TranslateDialog.tsx:30-41 | When disabled, nothing changes. Otherwise `loading` is false at the end, and `translated` becomes the result when there is one. |
| Translate.TranslateDialog.Action | src/components/notes/TranslateDialog.tsx:82-83 | Replace and create are enabled exactly when the translation is non-empty. They pass on `textToHtml` of it. |
| Insights.BulletsAvoid | src/components/notes/InsightsPanel.tsx:19-23 | Characters that occur in the summary only as bullet marks occur in no key point. |
| Insights.BulletsProperties | src/components/notes/InsightsPanel.tsx:19-23 | There are five bullets, or all pieces when fewer, in summary order. Each is non-empty, trimmed and free of the class's characters. |
| Insights.BulletsNone | src/components/notes/InsightsPanel.tsx:19-23 | There is no bullet exactly when the summary holds only class characters and whitespace. |
| Insights.BulletShowsContent | src/components/notes/InsightsPanel.tsx:19-23 | A key point exists only when the summary has a character that is neither a mark nor whitespace. |
| Insights.InsightsPanel.constructor | src/components/notes/InsightsPanel.tsx:11-13 | The panel starts idle, with no summary and no key points. |
| Insights.InsightsPanel.GenerateDisabled | src/components/notes/InsightsPanel.tsx:39 | The Generate button is disabled exactly while loading or when the text is only whitespace. |
| Insights.InsightsPanel.Generate | src/components/notes/InsightsPanel.tsx:39 | A click on a disabled button changes nothing and hands nothing on. An enabled click behaves as `handleGenerate`. |
| Insights.InsightsPanel.HandleGenerate | src/components/notes/InsightsPanel.tsx:15-30 | On success the summary is stored unmodified with its bullets, and both go to `onGenerate`. On failure nothing is stored. `loading` is false at the end. |

## Findings

| source | as written | input that shows it | evidently intended | confidence | as-written member | corrected member |
|---|---|---|---|---|---|---|
| src/utils/aiHelpers.ts:181 | The class `[.*+?^${}()\|[\\]` closes after the backslash, so the pattern only matches a class character followed by a literal `\]`. | `escapeRegExp("a.b")` returns `a.b` unescaped. | Escape every metacharacter, with the class `[.*+?^${}()\|[\]\\]`. | not executed; read from the pattern text | Keywords.EscapeRegExpLeavesDot | Keywords.UnescapeEscapeMeta |

The glossary pass (`Annotator.ApplyGlossary`) builds its pattern with the intended escape, and so matches every key literally (`Annotator.AlternativesOfEscaped`). Glossary terms built by `buildGlossary` are tokens, and on tokens both escapes are the identity (`Keywords.EscapeAgreesOnTokens`). So the annotated note is the same either way.

## Left out

- HTML parsing and serialisation (`innerHTML`), and `getPlainText`'s element creation. A note body is the parsed node tree `Dom.Node`. The page-level functions take the HTML-to-text conversion as a parameter `plain`.
- The tree walk works on values. The model returns the new child list instead of mutating the container in place, so node identity and aliasing are not modelled.
- `toLowerCase` of full Unicode is a parameter `lower` in the search filter. Tokenizing models it per character (ASCII letters, U+212A and U+0130). The glossary's `match.toLowerCase()` is ASCII-only, which agrees with the source on the `applyAI` path, where every glossary term is a token.
- IndexPage.Filtered: the lower-cased query and note text are `lower(…)` of the parameter, not a modelled Unicode case mapping.
- `src/utils/crypto.ts` is not part of this model. Encryption and decryption are parameters `encrypt` and `decrypt`; a decryption failure is `None`.
- `src/utils/aiRuntime.ts` is not part of this model. The awaited results of `summarize` and `translate` are parameters `outcome`; a rejection is `None`.
- `src/utils/storage.ts` is not part of this model. Loading takes the stored notes and id as parameters. Saving is an effect with no state of its own.
- `generateId()`, `new Date().toISOString()` and `window.prompt` are parameters: ids, clock readings and the password.
- IndexPage.UpdatedNote: one clock reading serves both the version timestamp and `updatedAt`; the source reads the clock twice, microseconds apart.
- IndexPage.Patch: only the fields the page's callers pass are modelled (title, content, `encrypted`, `encData`, `summary`); `pinned`, `tags` and `versions` change only through their own handlers.
- Asynchronous handlers (`handleLockToggle`, `handleTranslate`, `handleGenerate`) run atomically. Interleaving with other events, and a `current` captured before an `await`, are not modelled.
- React rendering, effects scheduling and the JSX markup are left out, apart from the rules modelled above: which rows, placeholders and buttons show, and what the buttons pass.
- History.Panel: `format(new Date(v.timestamp), "PPpp")` is left out, and a row carries the raw timestamp. The source's `slice()` copy is implicit, because sequences are values and the input cannot change.
- Sidebar.Ordered and History.Newest: the source's order among equal stamps is implementation-defined, because the comparator is inconsistent. The model takes the stable order, and no property depends on it.
- Keywords.SuggestTags, Keywords.BuildGlossary, Annotator.ApplyAI and IndexPage.NotesApp.SyncTags require every candidate token (a non-stopword longer than three, or four for the glossary) to be an ordinary property key. This excludes `__proto__`-style keys such as `constructor` and canonical array indices, whose object-key order or lookup differs in JavaScript.
- Annotator.ApplyGlossary: the pattern is built with the intended escape, so every key is matched literally. With the escape as written (see Findings), a map whose keys hold regular-expression metacharacters (never one built by `buildGlossary`) would make the source's pattern behave differently, or fail to compile; that behaviour is not modelled. Two more kinds of key, also never built by `buildGlossary`, are matched differently from the source:
  - an empty key is never matched (`Patterns.TermAt` skips empty terms), while the source's empty alternative matches at every word boundary and yields empty spans;
  - a key holding a non-ASCII letter is compared with ASCII case folding only, while the source's `i` flag also folds non-ASCII letters, so the source wraps `NAÏVE` for the key `naïve` and the model does not.
- Summarizer.Outranks: scores are exact rationals, not floating point; `sum / len` rounding is not modelled.
- `maxSentences`, `count` and `limit` are natural numbers; negative arguments are not modelled.
- The editor's formatting commands (`execCommand`), focus handling and the `innerHTML` sync effect are UI and are left out.
- Translate.LangLabel: the labels are modelled, and the Select widget that shows them is UI and is left out.
- Summarizer.SummarizeText: when `constructor` is a content word, the source's count `freq[t] || 0` starts from the inherited `Object` function, so the count becomes a string, the score becomes `NaN` and the sort order is implementation-defined. The method requires that this does not happen whenever sentences are ranked; with no more sentences than asked the result does not depend on the scores.
