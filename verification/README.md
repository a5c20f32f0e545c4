# Recommendation formatter and keyword check, in Dafny

This project models the two pure parts of the `/recommend` handler in
`backend/index.ts`.

The first is the **reply formatter** (lines 63-139). It takes the text the
language model returned and does four things:

1. Splits it on `'\n'` and drops the lines that are blank after `trim()`.
2. Takes the first kept line as the introduction and the last as the conclusion.
3. Folds every kept line into two variables:
   - `currentList`, the pending list entry;
   - `recomendacionesHTML`, the finished `<ul>` blocks.

   Each trimmed line is classified as one of:
   - a *primary item*: it matches `^\d+\.\s*\*\*.*\*\*`, and its `**…**` runs become `<strong>` spans;
   - a *sub-item*: it matches `^-\s.*$`, and it goes into a nested `<ul>`;
   - a *plain line*: it closes the open entry with `</li>`.
4. Wraps the blocks in a fixed template with a heading that carries the person's name.

The second is the **keyword check** (lines 39-44). The request is accepted
when one of six Spanish medical keywords occurs in the lower-cased,
space-joined `nombre`, `sintomas` and `antecedentes`. Otherwise the handler
answers 400.

Modules, one per file except `Wrappers`/`Text` and `Replace`/`ListItem`:

- `Text` (`text.dfy`): the string primitives the handler uses. This covers
  - ECMAScript `trim` with its exact whitespace set;
  - `split('\n')` and its inverse join;
  - `includes`, `startsWith` and `endsWith`.
- `Classify` (`classify.dfy`): the two line patterns, as hand-written scanners.
  - The primary-item scanner is proved equal to a literal reading of the regular expression.
  - Like the regular expression, it rejects a line terminator inside `.*`.
- `Emphasis` (`emphasis.dfy`): the global, lazy `**(.*?)**` → `<strong>$1</strong>` rewrite of line 90. Its partner is the reverse rewrite `Unbold`.
- `Replace` and `ListItem` (`listitem.dfy`):
  - `String.prototype.replace`'s `$`-pattern expansion;
  - the in-place string edits on one list entry (lines 104-110 and 117-119);
  - a structured `Item` that those strings render.
- `Formatter` (`formatter.dfy`): the filter, the framing, the fold and the template. The fold exists twice.
  - `Run` over `State(currentList, blocks)` edits strings as the source does, including the `$` expansion of the sub-item insertion on lines 107-110.
  - `AbsRun` builds `Item`s, with sub-item texts inserted literally.
  - `BlocksAreRenderedItems` proves they agree when no primary line holds `<` and no sub-item text holds `$`.
- `Validator` (`validator.dfy`): the keyword list, lower-casing and the `some` loop.
- `Recommend` (`recommend.dfy`): the handler as a function from the request and the assistant's reply to a response.

The network call that produces the reply is not modelled; the reply is a
parameter.

Where a reader might expect otherwise, the model follows the code:

- **Empty reply:** a reply with no non-blank line is not an error. `lines[0]` is `undefined` and the template prints `undefined` twice (`BlankReplyFormat`).
- **Untrimmed introduction and conclusion:** they are the raw kept lines (`IntroIsFirstNonBlank`, `ConclusionIsLastNonBlank`).
- **Digits are required:** a primary item needs at least one leading digit.
- **One entry per block:** every `<ul>` block holds exactly one primary entry, because each primary line flushes before it pushes.
- **Sub-item classification and stripping:** a sub-item is a dash followed by *any* whitespace character, but only a literal `"- "` is stripped from it (`SubItemKeepsDash`).
- **Closed entries:** a sub-item that arrives after a plain line has closed an entry with a sub-list is lost (`LateSubItemLost`, `ClosedItemStays`).
- **Sub-items after an early close:** an entry closed before it had any sub-item still takes sub-items. They follow its `</li>` (`SubItemsAfterEarlyClose`).
- **`$` in later sub-items:** the second and later sub-items of an entry go through `replace` with a replacement string, so `$&`, `$$`, `` $` `` and `$'` in their text are expanded. The string fold keeps this behaviour; the structured items insert the text literally, as intended (see Findings).

## Model

| member | source | states |
|---|---|---|
| Text.TrimEmptyIff | backend/index.ts:64 | a line is dropped exactly when every character of it is ECMAScript whitespace or a line terminator |
| Text.TrimIsSlice | backend/index.ts:76 | `trim()` returns a contiguous slice of the line with only whitespace cut off on either side, and the slice neither starts nor ends with whitespace |
| Text.JoinSplitLines | backend/index.ts:64 | `split('\n')` loses nothing: joining the pieces with `'\n'` gives back the reply |
| Text.SplitJoinLines | backend/index.ts:64 | splitting a join of newline-free pieces gives back the pieces |
| Text.IncludesIffOccurs | backend/index.ts:41 | `includes` holds exactly when the word occurs at some index |
| Classify.PrimaryIffMatch | backend/index.ts:80 | a trimmed line is a primary item exactly when it is some digits, a period, optional whitespace, `**`, a stretch without line terminators, then `**` |
| Classify.CloseAtFirst | backend/index.ts:90 | the lazy `.*?` ends at the first `**` reachable without crossing a line terminator |
| Classify.CloseAtSound | backend/index.ts:90 | what the closing-run search finds has no line terminator and no earlier `**` before it |
| Classify.PrimaryIsNotSubItem | backend/index.ts:80-95 | no line is both a primary item and a sub-item, so the order of the two tests does not matter |
| Classify.SubItemTextIsSlice | backend/index.ts:98 | the entry text of a sub-item is a slice of the trimmed line that starts after a literal `- ` (or at the dash when there is none), has only whitespace around it, and neither starts nor ends with whitespace |
| Classify.SubItemKeepsDash | backend/index.ts:95-98 | a sub-item whose dash is followed by a whitespace character other than a space keeps its dash in the entry text |
| Emphasis.BoldRoundTrip | backend/index.ts:90 | for a line without `<`, turning every `<strong>`/`</strong>` back into `**` restores the line: the rewrite changes nothing but `**` pairs |
| Emphasis.BoldStrongOnly | backend/index.ts:90 | for a line without `<`, every `<` of the rewritten title starts a `<strong>` or `</strong>` tag |
| Emphasis.BoldRun | backend/index.ts:90 | a `**x**` run (x without `*` or line terminator) becomes `<strong>x</strong>` and the rest is rewritten on its own |
| Emphasis.TwoRuns | backend/index.ts:90 | a title with two separate `**…**` runs gets two `<strong>` spans, not one |
| Emphasis.BoldPlainPrefix | backend/index.ts:90 | text without `*` is copied unchanged |
| Replace.SubstituteLiteral | backend/index.ts:107-110 | a replacement string without `$` is inserted literally |
| ListItem.IncludesUlIff | backend/index.ts:104 | the rendered entry contains `<ul>` exactly when it has sub-items |
| ListItem.EndsLiIff | backend/index.ts:117 | the rendered entry ends in `</li>` exactly when it has been closed |
| ListItem.EndsUlIff | backend/index.ts:108 | the rendered entry ends in `</ul>` exactly when it has sub-items and is not closed |
| ListItem.AddSubItemRender | backend/index.ts:104-111 | with the text inserted literally, as intended, adding a sub-item to the rendered string is rendering the item with the sub-item added, and keeps the entry well formed |
| ListItem.AsWrittenRender | backend/index.ts:104-111 | the insertion as written, `replace` included, is the same structured edit whenever the sub-item text has no `$` |
| ListItem.CloseItemRender | backend/index.ts:117-119 | closing the rendered string is rendering the closed item |
| ListItem.CloseItemOnce | backend/index.ts:117-119 | a closed entry ends in `</li>` and closing it again changes nothing |
| ListItem.LateSubItemLost | backend/index.ts:104-110 | once an entry with a sub-list is closed, a further sub-item leaves the string unchanged, with the `replace` as written as well as with the literal insertion |
| ListItem.AsWrittenAgrees | backend/index.ts:107-110 | without `$` in the sub-item text, the code as written and the literal insertion agree |
| ListItem.AsWrittenExpandsDollar | backend/index.ts:107-110 | for the sub-item text `$&`, the code as written inserts `</ul>` where the literal insertion inserts `$&` |
| Formatter.KeptLinesAppend | backend/index.ts:64 | the line filter distributes over concatenation |
| Formatter.KeptLinesSelects | backend/index.ts:64 | the kept lines are the lines at strictly increasing positions, and a position is among them exactly when its line's trim is non-empty: the filter keeps every non-blank line, in order, and nothing else |
| Formatter.KeptLinesNonBlank | backend/index.ts:64 | every kept line is non-blank |
| Formatter.IntroIsFirstNonBlank | backend/index.ts:64-67 | in lines `pre + [x] + post` where the filter drops every line of `pre` and keeps `x`, the introduction is `x` itself, untrimmed, whatever `post` holds |
| Formatter.ConclusionIsLastNonBlank | backend/index.ts:64-68 | in lines `pre + [x] + post` with `x` not blank and `post` all blank, the conclusion is `x` itself, untrimmed, whatever `pre` holds |
| Formatter.TokenizeMatches | backend/index.ts:76-98 | a line takes the primary branch exactly when the regular expression of line 80 matches its trimmed text, and then carries that whole trimmed text; it takes the sub-item branch exactly when the pattern of line 95 matches |
| Formatter.RunShape | backend/index.ts:84-91 | `currentList` never holds more than one entry, is empty exactly until the first primary line, and blocks plus pending entry number the primary lines |
| Formatter.BlockCount | backend/index.ts:84-131 | there are exactly as many `<ul>` blocks as primary lines |
| Formatter.OrphanSubItem | backend/index.ts:100-112 | a sub-item seen while no entry is pending leaves the state unchanged |
| Formatter.BlocksAreRenderedItems | backend/index.ts:75-131 | when no primary line contains `<` and no sub-item text contains `$`, the blocks the string edits build, as written, are exactly the renderings of the structured items, in order |
| Formatter.FormatIsFramedItems | backend/index.ts:134-139 | under the same two conditions, the page is the heading, the introduction, the rendered items in order and the conclusion |
| Formatter.BlankReplyFormat | backend/index.ts:64-68 | a reply without non-blank lines gives a page with `undefined` as introduction and conclusion and no blocks |
| Formatter.ItemsIgnoreLeadingNonPrimary | backend/index.ts:95-120 | lines before the first primary line, sub-items and plain lines alike, change nothing |
| Formatter.ItemTitles | backend/index.ts:80-91 | the k-th item's title is the k-th primary line, trimmed and emphasised |
| Formatter.SubItemsCollect | backend/index.ts:104-110 | sub-item lines after an entry with no sub-list yet, whether just opened or closed early by a plain line, become its sub-items, in input order |
| Formatter.ClosedItemStays | backend/index.ts:107-119 | once an entry with sub-items is closed, no later non-primary line changes it |
| Formatter.SubItemRun | backend/index.ts:95-119 | an entry with no sub-list yet, then a non-empty run of sub-items, then non-primary lines starting with a plain one give one item holding the run's texts, closed by the plain line |
| Formatter.ItemBetweenPrimaries | backend/index.ts:84-119 | when a primary line is followed by a non-empty run of sub-items, its item holds exactly that run and is closed exactly when a plain line comes between the run and the next primary line |
| Formatter.SubItemsAfterEarlyClose | backend/index.ts:104-119 | a primary line closed at once by a plain line still takes the non-empty run of sub-items that follows: its block is the title, the early `</li>`, then the sub-list, and a later plain line closes it a second time |
| Formatter.LastItemClosed | backend/index.ts:123-126 | the last item, when a non-empty run of sub-items follows its primary line, is closed at the end even without a trailing plain line |
| Formatter.LastBlockClosed | backend/index.ts:123-131 | on the string fold as written, the last block always ends in `</li></ul>`, with or without sub-items and with or without a trailing plain line |
| Formatter.AbsRunKeepsPrefix | backend/index.ts:84-120 | every step edits only the last entry or appends one, so earlier entries never change |
| Formatter.ConsecutivePrimaries | backend/index.ts:84-91 | a primary line directly followed by another leaves its entry unclosed |
| Formatter.UnclosedBlock | backend/index.ts:84-91 | for any lines, the block of a primary line directly followed by another is `<ul><li>` and the emphasised title followed by `</ul>`, with no `</li>` |
| Formatter.RunKeepsBlocks | backend/index.ts:84-87 | a flushed block is never edited again: every later state starts with the blocks flushed so far |
| Validator.LowerAppend | backend/index.ts:40 | lower-casing distributes over concatenation |
| Validator.LowerIdempotent | backend/index.ts:40 | lower-casing twice is lower-casing once |
| Validator.KeywordsShape | backend/index.ts:39 | the keywords are already lower-case and contain no space |
| Validator.IncludesJoin | backend/index.ts:40-41 | a space-free word occurs in two texts joined by a space exactly when it occurs in one of them |
| Validator.Validate | backend/index.ts:41 | the `some` loop answers exactly whether some keyword occurs in the lower-cased joined input |
| Validator.ValidIffSomeFieldHasKeyword | backend/index.ts:39-41 | a request is accepted exactly when one of its three fields, lower-cased, contains a keyword |
| Validator.ValidIgnoresCase | backend/index.ts:40 | fields that lower-case alike are accepted alike |
| Recommend.Handle | backend/index.ts:43-45 | a request is rejected with status 400 and the fixed message exactly when it fails the keyword check |
| Recommend.AnsweredIffFieldHasKeyword | backend/index.ts:37-45 | a request is answered exactly when a present field, lower-cased, contains a keyword; missing or `null` fields never help |
| Recommend.AnswerIgnoresSymptoms | backend/index.ts:134-139 | once accepted, the page depends only on the reply and the name |
| Recommend.BlankReplyAnswer | backend/index.ts:64-68 | an accepted request with a blank reply is answered with the `undefined` page, not an error |

## Left out

- Express setup, CORS, body parsing, routing and `listen` (lines 1-17, 36, 157-159): framework plumbing.
- The MySQL connection and `INSERT` (lines 19-33, 140-148): external I/O through an asynchronous callback, with no effect on the response: its error branch (line 145) runs only after line 150 has sent the page, so its 500 answer is never sent.
- The OpenAI request (lines 47-61): a network call. Its reply is a parameter of `Format` and `Handle`, and its failures (the 500 answer of lines 151-154) are not modelled.
- The `console.log` calls inside the loop (lines 77, 81, 96, 114): they do not affect the result.
- `edad` and `genero`: they reach only the prompt and the database.
- The `res.json` wrapping: the model returns the page string itself.
- Validator.Lower: only ASCII and Latin-1 letters are lower-cased. JavaScript's `toLowerCase` covers all of Unicode, and a few characters outside Latin-1 lower-case to several characters.
- Request fields that are JSON numbers, booleans or objects: fields are absent, `null` or strings.
- JavaScript strings are UTF-16 code units, while Dafny strings here are Unicode scalar values. A character outside the Basic Multilingual Plane is one character here and two in JavaScript. The patterns modelled never look inside such a character.
- Formatter.BlocksAreRenderedItems: assumes that no primary line contains `<` and that no sub-item text contains `$`. A primary title that itself contains `<ul>` would make `includes('<ul>')` true before any sub-item, and a `$&` in a later sub-item is expanded by `replace`; in both cases the string edits and the structured reading part ways. The string fold `Run` still models both cases exactly.
- Formatter.FormatIsFramedItems: carries the same two assumptions, for the same reasons, since it rests on `BlocksAreRenderedItems`.

## Findings

| source | as written | input that shows it | evidently intended | confidence | as-written member | corrected member |
|---|---|---|---|---|---|---|
| backend/index.ts:107-110 | the second and later sub-items are inserted by `replace` on the trailing `</ul>`, with the template `<li>${subItem}</li></ul>` passed as the replacement *string*, so `$&`, `$$`, `` $` `` and `$'` in the sub-item text are expanded | a primary line, then the sub-items `- a` and `- $&`: the second entry renders as `<li></ul></li>` instead of `<li>$&</li>` | the sub-item text is inserted literally, as the first sub-item is on line 105 | high; not executed | ListItem.AsWrittenExpandsDollar | ListItem.AddSubItemRender |
