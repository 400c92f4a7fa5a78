# interlinearized: FLEx interlinear texts to gb4e LaTeX, modelled in Dafny

`interlinearized.py` reads an XML export of interlinearized texts from FLEx. It writes one
LaTeX file per `interlinear-text` and a master index `__inputs.tex` that `\input`s them.

- Each text file starts with `\texttitle{…}`.
- Each paragraph becomes a gb4e `exe` block.
- A block holds:
  - a surface line built from the word and punctuation items;
  - in four-line mode, three tiers (morpheme text, citation form, gloss) built from the
    `morph` elements;
  - the free translation.

This project models that conversion on abstract input records in place of the XML tree.

| File | Module | What it models |
|---|---|---|
| `types.dfy` | `Types` | Optional values, variables that may still be unassigned (`Binding`), and the ways the script stops (`Failure`, `Result`). |
| `strings.dfy` | `Strings` | Python's `str.replace` (leftmost, non-overlapping) and per-character rewriting. |
| `gloss.dfy` | `Gloss` | `killspace`, `toSmallCaps` and the propagation of boundary hyphens onto glosses. |
| `surface.dfy` | `Surface` | What each item adds to the surface line, the two families of replace passes, and the removal of one leading space. |
| `tiers.dfy` | `Tiers` | Reading a `morph` element into a row of the three tiers, and the separator row after each `morphemes` group. |
| `render.dfy` | `Render` | `hash_escape`, `enclose_single`, the `{}` placeholder for empty glosses, and the text of one `exe` block. |
| `titles.dfy` | `Titles` | Choosing the title, the file-name and heading versions of it, the `2` suffix on a name clash, and the index entry. |
| `paragraph.dfy` | `Paragraphs` | The paragraph loop. |
| `document.dfy` | `Document` | The loop over texts. |

**The paragraph loop.** It is written the way the script runs it: methods with loops over
local buffers. Each method is proved equal to a specification made of independent folds
over the phrases:
- the surface line;
- the tier rows;
- the translation;
- the standard-error log.

**The loop over texts.** Here the methods are proved equal to a fold over the texts. The fold
takes a flag, `fixIndex`:
- with `fixIndex` false it is the script itself, whose index line inputs the unsuffixed title;
- with `fixIndex` true the index line inputs the file actually written (see "## Findings").

A lemma shows what a run leaves in the output directory, in both modes:
- one file per text, each under a name that was free;
- no file overwritten;
- each file named after its title, with or without the suffix `2`.

With the corrected line, the index inputs exactly those files, in order. The script's own
index inputs the titles instead. It inputs exactly the files written only when no text had
to be renamed (`Document.AsWrittenIndexMissesRenamed`).

The script's own hazards are reproduced rather than assumed away.
- The `morphemes` groups of a paragraph are appended once per phrase. The tiers are the
  paragraph's rows repeated once for every phrase (`Paragraphs.RowsAfter`).
- A paragraph without a `phrases` child reuses the phrases of an earlier paragraph. Before
  any paragraph has assigned them, the script stops (`NoPhrases`).
- The title of a text without title items is the previous text's title. Before any title is
  assigned, the script stops (`NoTitle`).
- Other ways the script stops:
  - a chosen title item without text (`TitleWithoutText`);
  - a `txt` or `cf` word item without text (`WordWithoutText`);
  - reading the first character of an empty surface line (`EmptyLine`).
- The renaming loop tries only `title + "2"`. When both names exist it never ends. The
  document level reports this as `CollisionLoop`.
- The master index inputs the unsuffixed title, even for a renamed file.

Some behaviour of the script is easy to misread. The model keeps it as written.
- `toSmallCaps` closes a small-caps span at *any* character outside A–Z, periods included,
  and looks no further ahead.
- Without an `iqu` title, the *last* title item wins.
- The two "curly quote" marks and the two dash marks in the post-processing are
  three-character strings (U+00E2 U+0080 U+0098 and so on). They are modelled as such, not
  as single typographic characters.

## Model

| member | source | states |
|---|---|---|
| Gloss.KillSpace | interlinearized.py:64-70 | A missing text gives ""; the result has no CR, LF, tab or space; it equals the per-character rewrite (CR/LF/tab deleted, space to period, all else kept in order). |
| Gloss.KillSpaceOnOneLine | interlinearized.py:64-70 | On a text without CR, LF or tab, the length is kept and position by position a space becomes `.` and every other character is unchanged. |
| Gloss.ToSmallCaps | interlinearized.py:74-89 | The one-flag scan produces exactly `SmallCaps(word)`. |
| Gloss.SmallCapsByRuns | interlinearized.py:74-89 | `SmallCaps` equals the run-based reference: each maximal A–Z run is lower-cased inside one `\textsc{…}`, every other character is copied. |
| Gloss.SmallCapsFacts | interlinearized.py:74-89 | The output has no A–Z, and its length is the input length plus 9 per maximal run of capitals. |
| Gloss.SmallCapsNoCapitals | interlinearized.py:74-89 | A word without capitals is returned unchanged. |
| Gloss.UncapsSmallCaps | interlinearized.py:74-89 | On a word without backslashes, removing the spans and upper-casing their letters gives the word back (nothing is lost). |
| Gloss.CapsFromNoBlank | interlinearized.py:74-89 | Small caps never introduce a blank into a blank-free gloss. |
| Gloss.MirrorHyphens | interlinearized.py:264-269 | If text or gloss is empty the gloss is unchanged. Otherwise a leading (trailing) hyphen of the text ensures one on the gloss, each side on its own. The gloss gains at most one hyphen per end: none at an end that already has one, and none at an end where the text has none. |
| Gloss.MirrorHyphensIdempotent | interlinearized.py:264-269 | Propagating twice equals propagating once. |
| Surface.Piece | interlinearized.py:217-233 | A txt/cf item adds `" " + text`; punctuation adds its text bare; a missing or lone-backslash punctuation text adds nothing; other items add nothing. |
| Surface.MoveLeftMarks | interlinearized.py:237-239 | The left-side passes only move characters: same length, same multiset of characters. |
| Surface.JoinNoSpaceMarksCounts | interlinearized.py:240-242 | The no-space passes delete spaces only: every other character keeps its count. |
| Surface.CleanLine | interlinearized.py:235-244 | Post-processing fails exactly on an empty line, and then with `EmptyLine`. |
| Surface.CleanLineStripsOneSpace | interlinearized.py:243-244 | The result is a suffix of the line after the passes, one character shorter if that line starts with a space and otherwise the same line. A second leading space survives. |
| Surface.LeftMarkMoves | interlinearized.py:237-239 | Between plain words, a backquote, parenthesis, bracket or brace followed by a space swaps with the space. |
| Surface.HyphenJoins | interlinearized.py:240-242 | Between plain words, a hyphen followed by a space loses the space. |
| Surface.LeftMarkLine | interlinearized.py:224-244 | A word, a left-side mark and a word, as the items build them (` x(` then ` y`), come out as `x (y`: the mark is attached to the following word. |
| Surface.HyphenLine | interlinearized.py:224-244 | A word, a hyphen and a word (` x-` then ` y`) come out as `x-y`. |
| Surface.MoveOneMark | interlinearized.py:237-239 | For any list of marks that each start with a non-plain character, where at most one entry starts with m and any such entry is [m]: a mark between plain words moves past its space exactly when [m] is in the list. |
| Surface.JoinOneMark | interlinearized.py:240-242 | For any list of marks that each start with a non-plain character, where at most one entry starts with m and any such entry is [m]: the space after a mark between plain words is dropped exactly when [m] is in the list. |
| Surface.CleanLineDropsOnlySpaces | interlinearized.py:235-244 | On a non-empty line post-processing succeeds, does not lengthen the line, and keeps the count of every character other than the space. |
| Surface.PlainWordsLine | interlinearized.py:217-244 | A word element of txt items without marks gives, after post-processing, the words joined by single spaces. |
| Tiers.LastOfKind | interlinearized.py:253-262 | The index found is of the last item of that type (later items overwrite earlier ones), or none exists. |
| Tiers.ReadMorph | interlinearized.py:250-262 | The item scan yields the killspace'd text and citation form of the last such items, and the small-capped gloss. |
| Tiers.MorphRowFacts | interlinearized.py:250-273 | A missing field is "". Text and citation form carry no blank. The gloss carries no blank and no capital, and mirrors the text's boundary hyphens. |
| Tiers.GroupRowsShape | interlinearized.py:248-276 | A group adds one row per morph, in order, then exactly one `(" ", " ", " ")` separator. |
| Tiers.GroupsRowsMirrored | interlinearized.py:248-276 | Every row of every group, separators included, mirrors its text's boundary hyphens. |
| Tiers.GroupsRowsLength | interlinearized.py:248-276 | The groups give as many rows as morphs plus one per group. |
| Render.HashEscape | interlinearized.py:123-125 | Every `#` becomes `\#` and nothing else changes; the length grows by the number of `#`. |
| Render.UnescapeHashEscape | interlinearized.py:123-125 | Reading `\#` back as `#` recovers the original text. |
| Render.EncloseSingle | interlinearized.py:93-97 | "" stays ""; otherwise the result is `` ` `` + x + `'`, two characters longer. |
| Render.GlossCell | interlinearized.py:303-307 | An empty gloss is written as `{}`; any other gloss is escaped. |
| Render.TierCellsConcat | interlinearized.py:297-302 | Writing the escaped cells one by one equals escaping their concatenation. |
| Render.GlossCellsConcat | interlinearized.py:303-308 | The gloss tier is the escaped concatenation with `{}` in place of each empty gloss. |
| Render.RenderBlock | interlinearized.py:291-310 | Every block starts with the `exe` environment and its label, and ends with the escaped translation and the end of the environment. |
| Render.TwoLineIgnoresTiers | interlinearized.py:291-310 | Without the four-line option the block is head, escaped surface line, tail; it does not depend on the tiers. |
| Render.FourLineTiers | interlinearized.py:291-310 | With the four-line option the block holds the escaped surface line, the three tier lines as escaped concatenations, and the escaped translation. |
| Titles.FirstPreferred | interlinearized.py:158-164 | The first title item in the preferred language, or none exists. |
| Titles.LastTitle | interlinearized.py:158-161 | The last title item, or none exists. |
| Titles.SelectTitle | interlinearized.py:158-164 | The scan with its early exit yields the first `iqu` title, else the last title, else the previous text's title. |
| Titles.FileTitle | interlinearized.py:166-173 | Same length as the raw title; each illegal character becomes `_` and every other is kept; no illegal character remains. |
| Titles.HeadingTitle | interlinearized.py:174-179 | `_` and `#` are deleted; no `_` or `#` remains; every other character keeps its count. |
| Titles.FileName | interlinearized.py:181-186 | The chosen name is free; it is the title itself exactly when that is free, otherwise `title + "2"`. |
| Titles.ResolveCollision | interlinearized.py:181-186 | The renaming loop ends on `FileName` when the suffixed name is free. |
| Titles.IndexEntryAsWritten | interlinearized.py:183-191 | The script's index line inputs the title. It inputs the file the renaming loop chose only when the title was free. |
| Titles.IndexEntry | interlinearized.py:183-191 | The corrected index line inputs the file the renaming loop chose. It agrees with the line as written exactly when the title was free. |
| Titles.AsWrittenIndexSkipsRenamedFile | interlinearized.py:183-191 | Two texts titled `Story`: the second goes to `Story2.tex`, yet the index line as written inputs `Story` again. |
| Paragraphs.ResolvePhrases | interlinearized.py:207-211 | With a `phrases` child, its `word` children and then its `phrase` children; without one, the earlier binding unchanged. |
| Paragraphs.FirstGloss | interlinearized.py:280-281 | The index of the first direct `gls` item of a phrase, or none exists. |
| Paragraphs.NextTranslation | interlinearized.py:280-287 | The first `gls` item's text (a missing text as ""), quoted; the current translation when there is none. |
| Paragraphs.NextTranslationIdempotent | interlinearized.py:248-287 | Looking up the translation once per group gives the same result as once. |
| Paragraphs.TranslatedFromLast | interlinearized.py:211-287 | The paragraph's translation is that of the last phrase carrying a `gls` item. |
| Paragraphs.TranslatedNone | interlinearized.py:201-287 | Without any `gls` item the translation stays "". |
| Paragraphs.NextLine | interlinearized.py:215-244 | A word without text stops the paragraph. Otherwise the line fails exactly when the line so far plus the phrase's text is empty. Only those two failures occur. |
| Paragraphs.LineAfterFailure | interlinearized.py:211-244 | A paragraph's line fails only with `WordWithoutText` or `EmptyLine`. |
| Paragraphs.PhrasesRowsCount | interlinearized.py:211-276 | A paragraph's tiers hold, per phrase, one row per morph and one per group. |
| Paragraphs.RepeatCopy | interlinearized.py:211-276 | Copy `k` of the paragraph's rows sits at offset `k` times the rows of one pass. |
| Paragraphs.PhrasesRowsMirrored | interlinearized.py:211-276 | Every row written for a paragraph mirrors its text's boundary hyphens. |
| Paragraphs.AppendItem | interlinearized.py:219-233 | Fails exactly on a txt/cf item without text; otherwise appends the item's piece and logs "Empty punctuation found" for a missing punctuation text. |
| Paragraphs.AppendItems | interlinearized.py:218-233 | Succeeds exactly when no item fails, and then appends the word's surface and diagnostics. |
| Paragraphs.AppendWords | interlinearized.py:215-233 | Succeeds exactly when no word fails, and then appends the phrase's surface and diagnostics. |
| Paragraphs.PostProcess | interlinearized.py:235-244 | The replace passes and space removal compute `CleanLine`. |
| Paragraphs.MoveMarks | interlinearized.py:237-239 | The left-side pass loop computes `MoveLeftMarks`. |
| Paragraphs.JoinMarks | interlinearized.py:240-242 | The no-space pass loop computes `JoinNoSpaceMarks`. |
| Paragraphs.PropagateHyphens | interlinearized.py:264-269 | The conditional edits compute `MirrorHyphens`. |
| Paragraphs.AppendMorph | interlinearized.py:249-273 | The three tiers stay of equal length and gain exactly the morph's row. |
| Paragraphs.AppendGroup | interlinearized.py:248-276 | The three tiers stay of equal length and gain exactly the group's rows and separator. |
| Paragraphs.TakeTranslation | interlinearized.py:280-287 | The early-exit scan computes `NextTranslation`. |
| Paragraphs.PhraseLine | interlinearized.py:215-244 | The words and post-processing of one phrase compute `NextLine`, and the log gains the phrase's diagnostics. |
| Paragraphs.PhraseGroups | interlinearized.py:248-287 | The group loop of one phrase appends all groups' rows. It does not change the translation when there are no groups; otherwise it sets the translation to `NextTranslation`. |
| Paragraphs.AddPhrase | interlinearized.py:211-287 | One phrase fails exactly as `NextLine` does. Otherwise it updates line, rows, translation and log, with the tiers kept aligned. |
| Paragraphs.ProcessParagraph | interlinearized.py:195-310 | The paragraph loop and block writing compute `ParagraphOutput`, and leave `phrases` bound as `ResolvePhrases` says. |
| Document.ConvertParagraphs | interlinearized.py:195-310 | The paragraph loop of one text computes `BodyAfter`. |
| Document.Heading | interlinearized.py:174-190 | The first line of a text's file is `\texttitle{…}` around the heading title, which holds no `_` or `#`. |
| Document.ConvertText | interlinearized.py:158-310 | One text computes `TextOutput`: title, file name, heading, index entry (as written or corrected, per `fixIndex`), then the paragraph blocks. |
| Document.ConvertDocument | interlinearized.py:138-314 | The whole run computes `DocumentAfter` from the index header on, in either index mode. |
| Document.TextConsistent | interlinearized.py:181-191 | One text adds one file under a free name and keeps earlier files. The index gains that file's line (corrected) or its title's line (as written). |
| Document.DocumentConsistent | interlinearized.py:138-314 | A run that completes writes one file per text. Each name was free (not pre-existing, not the index), none is used twice, and each is the title with or without `2`. The corrected index inputs exactly those files in order; the index as written inputs their titles in order. |
| Document.IndexLengths | interlinearized.py:183-191 | The index of titles is never longer than the index of files. It is as long only when no file was renamed, and then the two are equal. |
| Document.AsWrittenIndexMissesRenamed | interlinearized.py:183-191 | In the script's own run, the index inputs exactly the files written, in order, if and only if no text was renamed. |

## Left out

- The tkinter dialog, `sys.argv`, the timestamped output directory and every file open, write
  and close are not modelled. Files are returned as values; the output directory is a set of
  names given up front. The master index counts as present in it.
- `ET.parse`, the exit when the XML cannot be read, and the XML tree itself are not modelled.
  The input is abstract records:
  - a text's direct title items and its paragraphs;
  - a paragraph's optional `phrases` child and its `morphemes` groups;
  - a phrase's direct items and the item children of each `word` element it yields;
  - a morph's items.
  Children other than `item` elements are not represented.
- `ET.dump` of an empty punctuation item and the `print` calls in the `except` blocks are not
  modelled. Standard error is a returned list of messages.
- A run that stops is modelled as one `Failure`. The files and index lines the script had
  already written before it stopped are not modelled.
- Titles.ResolveCollision: requires that `title + "2"` be free when `title` is taken. The
  document level reports the other case as `CollisionLoop` instead of looping for ever.
- Paragraphs.AddPhrase, Paragraphs.ProcessParagraph and the other loop methods work on value
  copies of the buffers, not on Python lists updated in place. No buffer is shared with
  anything else, so no aliasing is lost.
- Surface.MoveOneMark, Surface.JoinOneMark, Surface.LeftMarkMoves, Surface.HyphenJoins,
  Surface.LeftMarkLine, Surface.HyphenLine: stated for the one-character marks between "plain" words, i.e. words without any character a mark
  begins with. The three-character quote and dash strings are covered only by the contracts
  that say what the passes keep (length, character counts). A character with which two marks
  of the script's list begin (the first byte of the three-character strings) is outside
  Surface.MoveOneMark and Surface.JoinOneMark.
- Unicode details are not modelled: `str.lower` is modelled only on A–Z, the only letters
  `toSmallCaps` lowers.

## Findings

| source | as written | input that shows it | evidently intended | confidence | as-written member | corrected member |
|---|---|---|---|---|---|---|
| interlinearized.py:191 | the index line inputs `title`, the unsuffixed name | two texts both titled `Story`: the second is written to `Story2.tex`, but the index inputs `Story` twice | input `titleascii`, the file actually written | high; not executed | Document.AsWrittenIndexMissesRenamed | Document.DocumentConsistent |
