# Find and replace over a plain-text buffer

This project models the hand-written find/replace engine of the
`useFindReplace` hook in `src/components/FindReplacePanel.jsx`. The hook
keeps a keyword (`findValue`), a replacement (`replaceValue`), a match
list and a current match index over the text of a content container.
The model proves properties of five behaviours:

- **Escaping.** The keyword's regular-expression metacharacters
  `. * + ? ^ $ { } ( ) | [ ] \` are escaped before the keyword is
  compiled. The model proves that the escaped keyword is a pattern of
  literal atoms that denotes exactly the keyword, and that every such
  pattern is the escape of its text.
- **Search.** `findText` calls `regex.exec` repeatedly. Each call resumes
  at the end of the previous match, and matching ignores case. The result
  is an ordered, non-overlapping list of `{start, end, text}` entries. The
  index becomes 0, or -1 together with a "no match" notice.
- **Navigation.** `switchMatch` steps circularly with JavaScript's `%`:
  `(i + 1) % n` for next and `(i - 1 + n) % n` for prev.
- **Highlighting.** Marks are spliced into the text from the last match to
  the first. The display is modelled as a sequence of pieces, not HTML. A
  piece is either a character or a mark holding its id, the matched text
  and whether it has the active background.
- **Replacement.** `replaceCurrent` splices the replacement over the
  current match and searches again. `replaceAll` substitutes every
  occurrence in one pass and then resets the state.

Modules: `Escaping`, `Matcher`, `Navigator`, `Highlighter` and `Replacer`
hold the pure parts. `FindReplace.Engine` is a class whose fields are the
hook's state, and its methods update them in place. `Engine.Valid()`
(the predicate `FindReplace.Consistent` over the fields) is the invariant
every method keeps:

- the index is -1 exactly when the list is empty;
- a non-empty list is the scan of the current text for the keyword;
- the display's text is the content;
- the display is either the plain text or the highlighted text for the
  list, possibly restyled;
- only the mark whose id is the current index can be active.

`Scenarios` works through concrete texts: a mixed-case search, circular
stepping, a replace-current followed by a re-scan, and a replace-all. It
also holds two sessions that drive an `Engine` through those steps.

The model keeps three behaviours of the code as they are:

1. **Reversed ids.** The mark with id `highlight-k` wraps match `n-1-k`,
   because ids come from the reversed iteration. `switchMatch` sets the
   active style on the element with the current index as id, so it
   styles the mirrored match (`Highlighter.ActiveMarkMirrored`).
2. **No active mark after a search.** Right after a search every mark is
   inactive (`Highlighter.RenderedMarks`). Only `switchMatch` makes a mark
   active.
3. **Replace-all can change case.** Replacing every occurrence of the
   keyword by the keyword itself leaves the text unchanged if and only if
   every occurrence is already spelled exactly like the keyword
   (`Replacer.ReplaceWithKeyword`). Matching ignores case, but the
   replacement is inserted as written.

After "React" is replaced by "React.js", the re-scan finds two matches,
because the "React" inside "React.js" matches "react" when case is
ignored (`Scenarios.RescanAfterReplace`).

`FindAll` is a function, so searching the same text for the same keyword
always gives the same list.

## Model

| member | source | states |
|---|---|---|
| Escaping.Escape | src/components/FindReplacePanel.jsx:49 | the escaped keyword is the keyword plus one extra character for each metacharacter |
| Escaping.EscapeIsLiteral | src/components/FindReplacePanel.jsx:49-50 | the escaped keyword, read as a pattern, consists only of literal atoms and denotes exactly the keyword |
| Escaping.LiteralIsEscape | src/components/FindReplacePanel.jsx:49 | every literal pattern is the escape of the text it denotes, so each metacharacter has exactly one backslash and no other character has one |
| Escaping.Compile | src/components/FindReplacePanel.jsx:146-147 | the text the compiled expression searches for is the keyword itself |
| Matcher.NextOccurrence | src/components/FindReplacePanel.jsx:50-55 | one `exec` from `lastIndex` returns the first position at or after it where the keyword occurs ignoring ASCII case; no earlier position has an occurrence; None means no occurrence remains |
| Matcher.ScanShape | src/components/FindReplacePanel.jsx:55-61 | every entry of `ScanFrom`, the list the exec loop collects from a given `lastIndex`, is an occurrence as long as the keyword and carries the text it covers; the entries lie in the text, in ascending order, without overlaps |
| Matcher.ScanComplete | src/components/FindReplacePanel.jsx:55-61 | every occurrence at or after the scan's start lies inside some entry of the scan |
| Matcher.OccursAtMeans | src/components/FindReplacePanel.jsx:50 | the case-insensitive expression matches at a position exactly when the slice of the text there is the keyword up to ASCII case |
| Matcher.FindAll | src/components/FindReplacePanel.jsx:55-61 | the match list is strictly ascending by start and pairwise non-overlapping; `end = start + length(keyword)`; each `text` is the covered slice, and the keyword occurs at each start |
| Matcher.MatchesIgnoreCase | src/components/FindReplacePanel.jsx:50-59 | the `text` of every entry equals the keyword up to ASCII case |
| Matcher.FindAllComplete | src/components/FindReplacePanel.jsx:55-61 | every occurrence of the keyword in the text starts inside an entry of the list: it is an entry, or it overlaps an entry found before it |
| Matcher.Scan | src/components/FindReplacePanel.jsx:51-61 | the `while (regex.exec)` loop returns exactly the match list `FindAll` |
| Navigator.JsRem | src/components/FindReplacePanel.jsx:104-106 | JavaScript's `%`: with the quotient truncated toward zero, `a = n * q + r`, `|r| < n`, and `r` has the sign of `a` |
| Navigator.Step | src/components/FindReplacePanel.jsx:102-107 | the new index is in `[0, n)`; next moves to `i+1` and wraps `n-1` to 0; prev moves to `i-1` and wraps 0 to `n-1`; from -1, next gives 0 and prev gives `n-2` (0 when n = 1) |
| Navigator.StepsUndo | src/components/FindReplacePanel.jsx:103-107 | prev undoes next, and next undoes prev |
| Navigator.Advance | src/components/FindReplacePanel.jsx:104 | repeated next steps stay in `[0, n)` |
| Navigator.AdvanceWithinCycle | src/components/FindReplacePanel.jsx:104 | `k <= n` next steps from `i` land on `i + k`, less `n` once it passes the end |
| Navigator.FullCycle | src/components/FindReplacePanel.jsx:104 | `n` next steps return to the starting index |
| Navigator.AdvancePeriodic | src/components/FindReplacePanel.jsx:104 | `k + n` next steps land where `k` steps do |
| Highlighter.PlainText | src/components/FindReplacePanel.jsx:30-36 | the cleared display has the same text content and no mark |
| Highlighter.BuildHighlights | src/components/FindReplacePanel.jsx:67-76 | splicing marks from the last match to the first produces the display `Rendered(text, matches)` |
| Highlighter.RenderedText | src/components/FindReplacePanel.jsx:68-77 | removing the marks from the highlighted display gives back the original text |
| Highlighter.RenderedMarks | src/components/FindReplacePanel.jsx:70-74 | the marks wrap the matches in text order; the mark of match `k` has id `n-1-k`; no mark is active after the search |
| Highlighter.RenderedUnstyled | src/components/FindReplacePanel.jsx:74 | every mark of a freshly highlighted display has the inactive background |
| Highlighter.Restyle | src/components/FindReplacePanel.jsx:98-112 | setting the background of the element with id `highlight-{id}` gives every mark with that id the requested style, keeps its text, and leaves every other piece as it was |
| Highlighter.RestyleKeeps | src/components/FindReplacePanel.jsx:98-112 | restyling the element with a given id keeps the text and the order of the marks and changes only the style of the marks with that id |
| Highlighter.SwitchStyles | src/components/FindReplacePanel.jsx:98-112 | if only the old index's mark could be active, after deactivating it and activating the new index exactly the marks with the new index as id are active |
| Highlighter.ActiveMarkMirrored | src/components/FindReplacePanel.jsx:70-112 | after activating id `j` on a highlighted display, the active mark is the one wrapping match `n-1-j`, and every other mark is inactive |
| Replacer.Splice | src/components/FindReplacePanel.jsx:126-129 | the new text is `text[0..start) + replaceValue + text[end..)`; its length is `length(text) - (end - start) + length(replaceValue)` |
| Replacer.SpliceUndo | src/components/FindReplacePanel.jsx:126-129 | splicing the old text back over the replacement restores the text |
| Replacer.ReplaceFromMatches | src/components/FindReplacePanel.jsx:146-148 | the single-pass replacement `ReplaceFrom` from a given `lastIndex` replaces each entry of the scan once and keeps the text between entries |
| Replacer.ReplaceEvery | src/components/FindReplacePanel.jsx:146-148 | `text.replace(regex, replaceValue)` replaces exactly the matches `findText` lists, each by the replacement, and keeps the text between them |
| Replacer.ReplaceEveryLength | src/components/FindReplacePanel.jsx:148 | after `replaceAll` the length is `length(text) + count * (length(replaceValue) - length(keyword))`, where count is the number of matches |
| Replacer.ReplaceWithKeyword | src/components/FindReplacePanel.jsx:146-148 | replacing every occurrence by the keyword leaves the text unchanged if and only if every match is spelled exactly as the keyword |
| FindReplace.SearchDisplay | src/components/FindReplacePanel.jsx:63-77 | after a search the display shows the searched text, is the plain or the highlighted text, and has no active mark |
| FindReplace.ResetConsistent | src/components/FindReplacePanel.jsx:23-27 | the reset state (empty list, index -1, plain display) satisfies the engine invariant for any keyword |
| FindReplace.SearchConsistent | src/components/FindReplacePanel.jsx:45-77 | the state a search for a non-empty keyword leaves (the scan's list, index 0 or -1, highlighted or plain display) satisfies the engine invariant |
| FindReplace.Engine.constructor | src/components/FindReplacePanel.jsx:14-19 | empty keyword and replacement, empty list, index -1, plain display |
| FindReplace.Engine.ClearHighlights | src/components/FindReplacePanel.jsx:30-36 | the display becomes the plain text content, and the list and index are unchanged |
| FindReplace.Engine.ResetFindState | src/components/FindReplacePanel.jsx:23-27 | the list is empty, the index is -1, the display is plain and the text is unchanged |
| FindReplace.Engine.FindText | src/components/FindReplacePanel.jsx:39-91 | an empty keyword resets the state with no notice; otherwise the list is `FindAll`; the index is 0, or -1 with a no-match notice; the display is highlighted or plain; the text is unchanged |
| FindReplace.Engine.SwitchMatch | src/components/FindReplacePanel.jsx:94-115 | no-op on an empty list; otherwise the index takes one circular step, the old index's mark is deactivated and the new index's mark is activated; afterwards a mark is active exactly when its id is the index |
| FindReplace.Engine.ReplaceCurrent | src/components/FindReplacePanel.jsx:118-135 | no-op when the index is negative or the list empty; otherwise the text is spliced at the current match, the list is `FindAll` of the new text for the keyword, the index is 0 or -1, and success is reported |
| FindReplace.Engine.ReplaceAll | src/components/FindReplacePanel.jsx:138-154 | warns and changes nothing for an empty keyword or list; otherwise the text is the single-pass replacement, the list is empty, the index is -1, and the reported count is the size of the list before |
| FindReplace.Engine.SetFindValue | src/components/FindReplacePanel.jsx:156-163 | the same keyword changes nothing; a new empty keyword resets the state; a new non-empty keyword is searched as `FindText` does |
| FindReplace.Engine.SetReplaceValue | src/components/FindReplacePanel.jsx:15 | only the replacement changes |
| Scenarios.SearchIgnoresCase | src/components/FindReplacePanel.jsx:55-64 | "react" in "React is great. react makes UIs." matches at [0,5) "React" and [16,21) "react" |
| Scenarios.NoMatchAtAll | src/components/FindReplacePanel.jsx:55-61 | "xyz" in "abc" gives an empty list |
| Scenarios.NavigateTwoMatches | src/components/FindReplacePanel.jsx:102-107 | with two matches, next goes from 0 to 1 and from 1 back to 0 |
| Scenarios.ReplaceFirstOfSentence | src/components/FindReplacePanel.jsx:126-129 | replacing [0,5) of the sentence by "React.js" gives "React.js is great. react makes UIs." |
| Scenarios.RescanAfterReplace | src/components/FindReplacePanel.jsx:131-133 | the re-scan of the edited sentence finds [0,5) "React" and the shifted [19,24) "react" |
| Scenarios.ReplaceThree | src/components/FindReplacePanel.jsx:146-148 | replacing "react" by "Vue" in "react react react" gives "Vue Vue Vue" |
| Scenarios.RepeatedCount | src/components/FindReplacePanel.jsx:153 | the reported count for "react react react" is 3 |

## Left out

- DOM and UI effects are not modelled: markup in `innerHTML`, the inline style strings, `getElementById`, `scrollIntoView`, the antd message toasts, the tabs (`activeKey`), the JSX layout and the Ctrl/Cmd+F listener. Notices are returned as values, and the display is a sequence of pieces.
- The container's markup is not modelled. `clearHighlights` writes the text content back as `innerHTML` (src/components/FindReplacePanel.jsx:34), and `findText` writes the whole highlighted text, matched and unmatched parts alike, as `innerHTML` (src/components/FindReplacePanel.jsx:72-77), in both cases without escaping. A text holding `<`, `>` or `&` (`x<y>z`, `AT&amp;T`) is parsed as markup, so its `textContent` afterwards differs. The model assumes every text comes back unchanged when written as `innerHTML`. `Highlighter.PlainText`, `Highlighter.RenderedText`, `FindReplace.Engine.ClearHighlights`, `FindReplace.Engine.FindText` and the display part of `FindReplace.Engine.Valid` hold only under that assumption.
- The `!contentRef.current` checks are left out: the container is taken to be mounted.
- React scheduling is left out. The stale `currentMatchIndex` a `switchMatch` closure can capture is not modelled. Each method sees the latest state, and the keyword effect runs inside `SetFindValue`.
- FindReplace.Engine.ReplaceAll: `String.prototype.replace` interprets `$&`, `` $` ``, `$'` and `$$` in the replacement. The model inserts the replacement verbatim, so it matches the code only when `replaceValue` holds no `$`.
- Matcher.Fold: only ASCII letters are folded. The `i` flag's Unicode case canonicalisation of other characters is not modelled.
- JavaScript strings are UTF-16 code units, while Dafny characters are Unicode scalar values. Surrogate pairs are not modelled.
- src/App.jsx is not part of this model: it delegates every operation to the prosemirror-search library.
- src/_main.jsx, src/components/Editor.jsx and src/schema/index.js are not part of this model: they bootstrap the editor and build its schema.
- src/utils.js is not part of this model: `getUrlSearchParams` wraps `URLSearchParams` and uses floating-point number coercion.
