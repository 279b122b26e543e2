# Douban book-info copier, modelled in Dafny

The userscript `content.js` adds two buttons next to the title of a Douban book
page. One button copies the book's title and synopsis as text. The other copies
the cover image. Status messages ("loading", "success", "error") are shown in the
same button group. This project models the parts of the script that hold logic:

- **Text cleanup** (module `TextCleanup`, `text_cleanup.dfy`). These are the two
  regular-expression chains, written as functions over `string`:
  - the title chain: `\s+` becomes one space, then `trim`;
  - the synopsis chain: runs of `\s`, U+3000 and U+200B become one space, then
    one global replace removes `（…）`, `[digits]`, `【…】`, `展开全部`, `更多→`
    and U+00A0, then `trim`.

  `\s` and `trim` use the ECMAScript WhiteSpace and LineTerminator set
  (`IsJsSpace`). The global replace is modelled as the left-to-right scan
  it performs (`Scan`, trying the alternatives in source order). That scan is
  proved to be the only segmentation allowed by a declarative description of
  the matches (`IsScan`, `ScanUnique`).
- **Book-info assembly** (module `Extraction`, `extraction.dfy`).
  - The description is the placeholder `暂无简介`, or the cleaned text of the
    intro section at index 1. That text is its paragraphs joined by `\n`, or the
    section's own text when it has no paragraphs.
  - The clipboard text is `《title》`, a blank line, then the description.
- **Bounded polling** (module `Polling`, `polling.dfy`). `waitForElement` is a
  method with the source's retry counter loop. The page's answer to the n-th
  query is the input `poll(n)`.
- **Status area** (module `StatusArea`, `status_area.dfy`). The button group is a
  class whose child list is a `seq<Node>` changed in place.
  - `ShowMessage` removes every status child and appends the new one.
  - `RemoveMessage` is `message.remove()`.
- **The collector and the two click handlers** (module `Handlers`,
  `handlers.dfy`). These are methods over the group. Every browser result is an
  input: the title query answers, the intro sections, the cover `src`, and the
  outcomes of `fetch`, `blob()` and the clipboard writes.

Shared `Option`/`Result` types live in `wrappers.dfy`.

Four behaviours of the cleanup code are worth knowing, each shown by a lemma:

- The synopsis cleanup is not idempotent: removing an inner label can
  assemble a new one, so a second pass removes more (`CleanSynopsisNotIdempotent`).
- It can leave two adjacent spaces, because whitespace is collapsed before an
  annotation between two spaces is removed (`CleanSynopsisCanLeaveDoubleSpace`).
- The placeholder is used only when there is no second intro section; a second
  section holding only whitespace gives an empty description (`DescriptionMayBeEmpty`).
- The U+00A0 alternative of the annotation pattern never fires in the synopsis
  chain, because the whitespace pass has already turned every U+00A0 into a
  space (`NbspAlternativeDead`).

## Model

| member | source | states |
|---|---|---|
| TextCleanup.DropLeading | content.js:193 | the result is the input with exactly its leading run of class characters cut: a suffix, everything cut is in the class, and it does not start with a class character |
| TextCleanup.Collapse | content.js:193 | the whitespace pass never lengthens the text; `CollapseSplitsAtSolid` and `CollapseRun` characterise it completely |
| TextCleanup.CollapseSplitsAtSolid | content.js:193 | a character outside the class splits the pass: the text before it and the text after it are collapsed independently |
| TextCleanup.CollapseRun | content.js:193 | a non-empty run made only of class characters becomes exactly one space |
| TextCleanup.CollapseSpec | content.js:193 | after the whitespace pass, the only class character left is the ASCII space, no two spaces are adjacent, and every other character is kept in order |
| TextCleanup.CollapseFixesCollapsed | content.js:193 | a string that is already collapsed is left unchanged by the whitespace pass |
| TextCleanup.CollapseIdempotent | content.js:193 | the whitespace pass applied twice gives the same as once |
| TextCleanup.Trim | content.js:195 | `trim` returns a contiguous slice that neither starts nor ends with JS whitespace; only JS whitespace was cut from either end |
| TextCleanup.TrimShrinks | content.js:195 | trimming never lengthens the text and introduces no character |
| TextCleanup.TrimKeepsCollapsed | content.js:168 | trimming a collapsed string keeps it collapsed |
| TextCleanup.LazyClose | content.js:194 | the lazy `.*?` stops at the nearest closing bracket, and fails at a line terminator or at the end of the text |
| TextCleanup.EnclosedLength | content.js:194 | gives the length of the `（…）` / `【…】` match at the start of the text, or 0 exactly when no prefix matches |
| TextCleanup.FootnoteLength | content.js:194 | gives the length of the `[digits]` match at the start, or 0 exactly when no prefix matches |
| TextCleanup.LiteralLength | content.js:194 | gives the length of a literal label at the start, or 0 exactly when the text does not start with it |
| TextCleanup.MatchLength | content.js:194 | the alternation tried in source order gives an annotation prefix, or 0 exactly when no annotation starts here |
| TextCleanup.AnnotationPrefixUnique | content.js:194 | two annotations that both start a text are equal |
| TextCleanup.StripAnnotations | content.js:194 | the annotation pass never lengthens the text, and its result is a sub-multiset of the input |
| TextCleanup.Scan | content.js:194 | the replace loop yields a valid left-to-right segmentation into kept characters and removed annotations |
| TextCleanup.ScanHead | content.js:194 | a segmentation keeps the first character exactly when no annotation starts there |
| TextCleanup.ScanUnique | content.js:194 | the left-to-right segmentation of a text is unique |
| TextCleanup.StripAnnotationsSpec | content.js:194 | the annotation pass keeps exactly the characters that any valid segmentation keeps |
| TextCleanup.KeptTextWithin | content.js:194 | the kept characters of a segmentation form a sub-multiset of the text |
| TextCleanup.StripAnnotationsShrinks | content.js:194 | the annotation pass only deletes characters |
| TextCleanup.MatchShape | content.js:194 | a match begins at one of the six start characters, and a bracketed match contains its closing bracket |
| TextCleanup.StripKeepsPlainText | content.js:194 | text in which no annotation can begin is left unchanged |
| TextCleanup.StripKeepsUnclosedParen | content.js:194 | an opening `（` with no `）` after it survives, whatever other brackets follow |
| TextCleanup.StripKeepsUnclosedLenticular | content.js:194 | an opening `【` with no `】` after it survives, whatever other brackets follow |
| TextCleanup.NbspNeverRemoved | content.js:194 | without U+00A0 in the input, the U+00A0 alternative never matches |
| TextCleanup.NbspAlternativeDead | content.js:193-194 | in the synopsis chain the U+00A0 alternative never matches |
| TextCleanup.CleanSynopsis | content.js:192-195 | the cleaned synopsis is no longer than the raw text and has no JS whitespace at either end |
| TextCleanup.CleanSynopsisSpec | content.js:192-195 | the cleaned synopsis is no longer than the raw text, has no whitespace at either end, and holds no whitespace but the ASCII space |
| TextCleanup.CleanSynopsisOfSpace | content.js:192-195 | a synopsis of one space cleans to the empty string |
| TextCleanup.CleanSynopsisNotIdempotent | content.js:192-195 | `展开展开全部全部` cleans to `展开全部`, which cleans again to the empty string |
| TextCleanup.CleanSynopsisCanLeaveDoubleSpace | content.js:192-195 | `a （x） b` cleans to `a  b`, which is not collapsed |
| TextCleanup.CleanTitle | content.js:168 | the cleaned title is no longer than the title element's text and has no JS whitespace at either end |
| TextCleanup.CleanTitleSpec | content.js:168 | the cleaned title is collapsed, has no whitespace at either end, and holds no line break |
| TextCleanup.CleanTitleIdempotent | content.js:168 | cleaning a title twice gives the same as once |
| Extraction.JoinLines | content.js:185 | the first paragraph leads the joined text, and a line break follows it when there are more; with `JoinLinesAppend` and the one-paragraph case this fixes the join of every list |
| Extraction.JoinLinesAppend | content.js:185 | joining one more paragraph appends a line break and that paragraph |
| Extraction.IntroText | content.js:183-189 | a section without paragraphs gives its own text; otherwise its text is the paragraphs joined by line breaks, led by the first paragraph |
| Extraction.Description | content.js:176-195 | with a second section, the description is no longer than that section's raw text; it never has JS whitespace at either end |
| Extraction.BookInfoOf | content.js:202-205 | the book's title holds no line break and is no longer than the title element's text |
| Extraction.DescriptionSpec | content.js:176-195 | with fewer than two intro sections the description is `暂无简介`; otherwise it is the cleaned text of section 1, no longer than that raw text and without whitespace at either end |
| Extraction.DescriptionOnlyReadsSecondSection | content.js:179-180 | two section lists with the same section 1 give the same description |
| Extraction.IntroTextPrefersParagraphs | content.js:183-189 | a section with paragraphs is read through them only, and its own text is ignored |
| Extraction.DescriptionMayBeEmpty | content.js:176-195 | a second section holding only a space gives an empty description |
| Extraction.ClipboardText | content.js:242 | the clipboard text is four characters longer than title and description together, opens with `《`, closes the title with `》`, and ends with the description |
| Extraction.FirstBlankLine | content.js:242 | finds the first position from which two line breaks meet, and there is none before it |
| Extraction.ClipboardTextSplits | content.js:242 | for a title without line breaks, the clipboard text splits at its first blank line back into `《title》` and the description |
| Extraction.BookInfoClipboardRoundTrip | content.js:242 | for every extracted book, the clipboard text splits back into `《title》` and the description |
| Polling.FirstHit | content.js:148-151 | the index of the first successful query among the first n, with every earlier query failing |
| Polling.NotFoundMessage | content.js:152 | the rejection message names the selector, between `元素 ` and ` 未找到` |
| Polling.PollResult | content.js:145-156 | the wait fails exactly when all of the first `maxRetries + 1` queries fail; otherwise it gives the answer of a query all of whose predecessors failed |
| Polling.WaitForElement | content.js:145-156 | makes 1 to `maxRetries + 1` queries, all but the last failing; resolves with the first element found, and rejects naming the selector only after all `maxRetries + 1` queries failed; agrees with `PollResult` |
| Polling.PollResultIgnoresLaterQueries | content.js:145-156 | the outcome depends on the first `maxRetries + 1` answers only |
| Polling.FirstHitAgrees | content.js:148-151 | query answers that agree on the first n give the same first hit |
| StatusArea.Messages | content.js:216 | the selected children are all status messages; `MessagesSelectsAll` shows every message is selected |
| StatusArea.Controls | content.js:217 | the surviving children contain no status message; `ControlsKeepsAll` shows every button survives |
| StatusArea.MessagesSelectsAll | content.js:216 | a child is selected exactly when it is a status message |
| StatusArea.ControlsKeepsAll | content.js:217 | a child survives the removal loop exactly when it is not a status message |
| StatusArea.AtMostOneMessage | content.js:216-222 | when at most one message is selected, all status messages among the children are the same one |
| StatusArea.Without | content.js:237 | removing one element leaves only children that were there |
| StatusArea.ControlsHaveNoMessages | content.js:216-217 | once the status messages are removed none is left, and removing them again changes nothing |
| StatusArea.AppendedMessageIsOnly | content.js:216-222 | after the messages are removed and one is appended, it is the only message, and the buttons are unchanged |
| StatusArea.WithoutAbsent | content.js:237 | removing an element that is not a child changes nothing |
| StatusArea.WithoutAppended | content.js:237 | removing the just-appended message leaves the buttons |
| StatusArea.WithoutKeepsControls | content.js:237 | removing a message keeps the buttons and never adds a message |
| StatusArea.DropMessages | content.js:216-217 | the loop over the loading/success/error children leaves exactly the non-message children |
| StatusArea.ButtonGroup.constructor | content.js:86-91 | the group starts with the text button and the image button and no message |
| StatusArea.ButtonGroup.ShowMessage | content.js:214-230 | removes every status message and appends the new one (auto-removed unless loading), returning its id; at most one message remains |
| StatusArea.ButtonGroup.RemoveMessage | content.js:237 | takes message `id` out of the group if it is still there, and keeps the group valid |
| Handlers.NatToString | content.js:261 | the decimal rendering of the status is a non-empty string of digits without a leading zero |
| Handlers.NatToStringRoundTrip | content.js:261 | reading the rendered status back gives the status |
| Handlers.NatToStringLength | content.js:261 | a status below 10, 100, 1000 or above has one, two, three or at least four digits, and the leading digit is the status divided by the matching power of ten |
| Handlers.FoundBook | content.js:165-205 | the collector finds nothing exactly when all four title queries fail; otherwise the book has a title without line breaks and the description of the intro sections |
| Handlers.LoadFailedText | content.js:208 | the load error starts with `内容加载失败: ` and names the title selector |
| Handlers.HttpError | content.js:261 | the error starts with `HTTP错误: ` and the rest is decimal digits that read back as the status |
| Handlers.CopyFailed | content.js:269 | the shown error is `复制失败: ` followed by the error's message |
| Handlers.IsOkStatus | content.js:259 | `response.ok` holds exactly for the statuses whose decimal rendering is three digits starting with 2 |
| Handlers.GetBookInfo | content.js:165-211 | yields the cleaned book when the title appears within four queries; otherwise shows `内容加载失败: ` followed by the rejection message, and yields nothing |
| Handlers.ShowsOnlyOneMessage | content.js:214-230 | after a handler settles, the group holds its buttons and exactly one auto-removed message |
| Handlers.WithoutOther | content.js:237 | removing the loading message after the error has displaced it changes nothing |
| Handlers.Settle | content.js:253-269 | whether or not the loading message is removed first, the outcome message is the only one left |
| Handlers.CollectBook | content.js:236-237 | after the book is collected and the loading message removed, either only the buttons remain or the load error is the only message |
| Handlers.StartAndCollect | content.js:235-237 | the text action's loading, collection and removal steps, stated against the group before the click |
| Handlers.ReportWrite | content.js:241-246 | shows `文本复制成功！` when the clipboard write succeeds and `文本复制失败` otherwise |
| Handlers.CopyText | content.js:234-247 | writes `ClipboardText` of the collected book exactly when the book is found; the only message left is the load error, the success message or the write error accordingly |
| Handlers.CopyImage | content.js:249-271 | without a cover address nothing is fetched and `复制失败: 封面地址获取失败` is shown; the clipboard is written exactly when the response is ok and the body is read; each failure shows `复制失败: ` and its reason (`HTTP错误: status` for a non-ok response); exactly one message remains on every path |

## Left out

- Style injection (content.js:10-83): only CSS and DOM.
- Button insertion, `DOMContentLoaded`, and the two `MutationObserver`s that re-mount and clone the button group, including the reassignment of `btnGroup` (content.js:94-133): browser observer plumbing. The model has one group object for its whole life.
- `debounce` (content.js:136-142): it is never called.
- Timers: the 500 ms poll interval is not modelled, only the number of queries. The 3000 ms auto-dismiss is kept only as the message's `autoRemove` flag; the later removal itself is not modelled.
- `fetch` through the CORS relay, `encodeURIComponent`, `response.blob()`, `ClipboardItem` and `navigator.clipboard` (content.js:242, 258-265): foreign browser and network calls. Their outcomes are inputs (`Outcome`, `FetchOutcome`, `writeOk`), and the relay URL is given only as the cover address handed to it.
- `querySelector`, `querySelectorAll`, `innerText` and `textContent`: their results are inputs (the poll answers, the `Section` list, the cover `src`). `fetchCoverImage` (content.js:159-162) is the `cover` input, where `None` or `""` is a missing address.
- `console` logging and the global `window` error handler (content.js:278-281).
- Interleaving: the handlers are `async`, and two clicks can interleave at the `await` points. Each handler is modelled as running to completion.
- Polling.WaitForElement: `maxRetries` is a `nat`. A negative or non-integer retry count, which JavaScript would accept, is not modelled; every caller uses the default of 3.
- Strings are sequences of Unicode code points, while JavaScript strings are sequences of UTF-16 code units. Every character the patterns mention lies in the Basic Multilingual Plane, so the cleanup behaves the same; but the length bounds (`CleanSynopsis`, `CleanTitle`, `DescriptionSpec`) count code points, not UTF-16 units.
- Handlers.GetBookInfo: the `try` block could in principle catch errors other than the title timeout. The model treats the timeout as the only failure, because the remaining steps are the pure cleanup functions.
