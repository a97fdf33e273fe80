# mymusic — a Dafny model of the review index, the autocomplete widget and the local admin

mymusic is a static music-review site. It has a local admin tool for adding reviews. This
project models the core of both parts and proves properties of the model.

- **Public site.** The site loads an ordered index of review records (`reviews.json`). Its
  shared script looks a review up by id, finds the review after a given one, and searches
  artist and album names without regard to case. It also escapes text for HTML, decides
  whether a review body is already HTML, and cuts a plain-text snippet from a review.
- **Autocomplete.** The search box shows up to ten suggestions. It lists records whose artist
  or album *starts* with the query, then records that only *contain* it. The arrow keys move a
  highlight through the list, Enter opens the highlighted record, and a click outside hides
  the list.
- **Local admin server.** The server gives a new review the next id (one more than the largest
  id). It stores the uploaded cover as `<id>.<ext>`, with a sanitised extension. It rejects a
  request that lacks an artist, album, review or cover, and otherwise appends the entry to the
  index.
- **Admin page.** The page previews the cover path (`covers/<nextId>.<ext>`) for the chosen
  file. It keeps its `nextId` in step with the server after each successful save.

Modules:

| file | module | what it holds |
|---|---|---|
| `wrappers.dfy` | `Wrappers` | `Option` |
| `text.dfy` | `Text` | character classes; ASCII lower-casing; trimming; prefix and substring tests; decimal rendering of integers, with its round trip |
| `seqs.dfy` | `Seqs` | `filter` and `slice(0, end)` as JavaScript defines them; subsequences |
| `reviews.dfy` | `Reviews` | the review record and the three index queries |
| `html.dfy` | `Html` | `escapeHtml` and its inverse; the tag test; `reviewToHtml`; the snippet |
| `autocomplete.dfy` | `Autocomplete` | the suggestion buckets; the key-step function; the widget as a class with the closure's state |
| `server.dfy` | `Server` | `next_id`, `safe_ext`, request validation; the store of index and covers as a class |
| `admin.dfy` | `Admin` | `buildCoverUrl`, the cover preview, the `nextId` update; the page state as a class |

How the model is set up:

- **Pure and stateful code.** Pure helpers are functions and lemmas. The widget's closure
  variables, the server's files and the admin page's `state` object are fields of classes.
  Their handler methods are specified by those functions.
- **Text.** Strings are sequences of characters, and lengths count characters.
- **White space.** JavaScript's `trim` and `\s` use the exact JavaScript white-space set
  (`IsJsSpace`). Python's `str.strip` uses Python's set (`IsPySpace`).
- **Case.** Lower-casing maps ASCII letters only.
- **Integers.** JavaScript's `%` keeps the sign of the dividend (`JsRem`).
- **`slice`.** A negative end index counts from the end, as `slice` does (`JsSlice`).
- **Markdown.** The markdown renderer is a function parameter. Only the branch of
  `reviewToHtml` that calls it is part of the model.

A cut snippet is not always `maxLen` characters plus the ellipsis. The code trims the cut
slice, so white space at the cut is dropped. It then escapes the slice, so `&`, `<` and `>` grow
into entities. `Html.SnippetLong` therefore states that the *decoded* visible part is a prefix
of the text of at most `maxLen` characters, that only white space was dropped up to `maxLen`,
and that it does not end in a space.

## Model

| member | source | states |
|---|---|---|
| `Reviews.FindIndex` | docs/js/utils.js:28 | the position of the first record with the id, or -1 exactly when no record has it |
| `Reviews.GetReviewById` | docs/js/utils.js:23-25 | none exactly when no record has the id; otherwise the first record that has it |
| `Reviews.GetReviewByIdFindsMember` | docs/js/utils.js:23-25 | the lookup of the id of any record of the index finds a record with that id |
| `Reviews.GetNextReview` | docs/js/utils.js:27-30 | the record right after the first record with the id, or none after the last one; for an unknown id, the first record, or none for an empty index |
| `Reviews.SearchReviews` | docs/js/utils.js:32-38 | a prefix of all records whose lower-cased artist or album contains the lower-cased query; its length is the limit, or every match when fewer; each result is a matching record of the index |
| `Reviews.SearchKeepsOrder` | docs/js/utils.js:34-37 | search results are a subsequence of the index: order is kept |
| `Reviews.SearchComplete` | docs/js/utils.js:34-37 | below the limit, every matching record is among the results |
| `Seqs.Filter` | docs/js/utils.js:34-37 | `filter` keeps only elements of the input that satisfy the predicate, and is no longer than the input |
| `Seqs.FilterComplete` | docs/js/utils.js:34-37 | every element that satisfies the predicate is kept |
| `Seqs.FilterIndicesCorrect` | docs/js/utils.js:34-37 | the kept elements are exactly the satisfying positions, in increasing order |
| `Seqs.JsSlice` | docs/js/utils.js:37 | `slice(0, end)`: a prefix of the input whose length is `end` clamped to the input's length; a negative end drops that many from the back, down to nothing |
| `Html.EscapeHtmlPerChar` | docs/js/utils.js:48-53 | the three global replacements equal replacing each `&`, `<`, `>` by its entity in one pass |
| `Html.EscapeHtml` | docs/js/utils.js:48-53 | `escapeHtml`: the escaped text contains no `<` and no `>` |
| `Html.EscapeHtmlIdentity` | docs/js/utils.js:48-53 | escaping leaves a string unchanged exactly when it has no `&`, `<` or `>` |
| `Html.EscapeHtmlKeepsQuotes` | docs/js/utils.js:48-53 | single and double quotes are not escaped: their count is unchanged |
| `Html.EscapeHtmlRoundTrip` | docs/js/utils.js:48-53 | decoding `&lt;`, `&gt;`, then `&amp;` restores the input: escaping loses nothing |
| `Html.IsHtml` | docs/js/utils.js:103-105 | `isHtml`: a text it accepts has at least three characters and holds a `<` and a `>` |
| `Html.IsHtmlCorrect` | docs/js/utils.js:103-105 | the scan is true exactly when some `<`, optional `/`, letter (either case) is followed later by `>` |
| `Html.TrimKeepsTagShape` | docs/js/utils.js:109 | testing the trimmed body is the same as testing the body |
| `Html.ReviewToHtml` | docs/js/utils.js:107-111 | empty body gives empty output; a body holding a tag shape is returned unchanged; any other body is rendered as markdown |
| `Html.StripTags` | docs/js/utils.js:115 | replacing `<[^>]+>` by a space: no `>` appears that was not in the input, and the first character is kept or becomes a space |
| `Html.StripTagsNoTag` | docs/js/utils.js:115 | a text without `<` passes through unchanged |
| `Html.StripTagsLeavesNoTag` | docs/js/utils.js:115 | after stripping, no tag pattern matches anywhere |
| `Html.CollapseSpaces` | docs/js/utils.js:115 | every white-space character left is a plain space and no two are adjacent; empty exactly when the input is; a text without white space is unchanged |
| `Html.CollapseOfSpaces` | docs/js/utils.js:115 | a non-empty run of white space collapses to exactly one space |
| `Html.CollapseConcat` | docs/js/utils.js:115 | collapsing two pieces joined where no run of white space is split equals collapsing each piece and joining the results |
| `Html.CollapseOfWords` | docs/js/utils.js:115 | two words with white space between them collapse to the two words and one space |
| `Html.CollapseKeepsText` | docs/js/utils.js:115 | collapsing keeps every character that is not white space, in order |
| `Html.TrimKeepsText` | docs/js/utils.js:115 | `trim` removes white space only: every other character is kept, in order |
| `Html.PlainText` | docs/js/utils.js:114-115 | the snippet text has no white space at either end, only plain spaces inside, and no two in a row |
| `Html.PlainTextKeepsText` | docs/js/utils.js:114-115 | the snippet text keeps every character of the tag-stripped html that is not white space, in order |
| `Html.PlainTextOfWord` | docs/js/utils.js:114-115 | a text with no `<` and no white space is its own snippet text |
| `Html.PlainTextOfWords` | docs/js/utils.js:114-115 | two words without `<` and with white space between them give the two words with one space between them: the space is neither kept long nor dropped |
| `Html.SnippetFromText` | docs/js/utils.js:116-117 | the truncation step: the snippet holds no `<` or `>`, and a text longer than `maxLen` gives a snippet ending in `…` |
| `Html.SnippetFromReview` | docs/js/utils.js:113-118 | `snippetFromReview`: the snippet holds no `<` or `>`, and one whose plain text is longer than `maxLen` ends in `…` |
| `Html.SnippetShort` | docs/js/utils.js:116 | a text of at most `maxLen` characters is shown whole: the snippet holds no `<` or `>`, and decoding it gives the text back |
| `Html.SnippetLong` | docs/js/utils.js:116-117 | a longer text gives an escaped prefix, then `…`; the snippet holds no `<` or `>`; the prefix has at most `maxLen` characters, does not end in a space, and only white space lies between its end and `maxLen` |
| `Html.CutIsPrefix` | docs/js/utils.js:117 | the trimmed `slice(0, maxLen)` of a text is a prefix of at most `maxLen` characters, shorter only by white space, not ending in a space |
| `Html.SnippetFromReviewLong` | docs/js/utils.js:113-118 | a long review's snippet ends in `…`, holds no `<` or `>`, and decodes to a prefix of the review's plain text of at most `maxLen` characters, shorter only by white space |
| `Autocomplete.NormalizeQuery` | docs/js/utils.js:138 | the normalised query is no longer than the input, has no white space at either end and no ASCII capital, and is empty exactly when the input is all white space |
| `Autocomplete.SplitBuckets` | docs/js/utils.js:147-159 | the single pass over the index yields exactly the prefix bucket and the substring-only bucket |
| `Autocomplete.BucketsSound` | docs/js/utils.js:154-158 | the prefix bucket holds only prefix matches; the other holds only records that contain the query without a prefix match; no record is in both |
| `Autocomplete.BucketsComplete` | docs/js/utils.js:154-158 | every record whose artist or album contains the query is in one of the buckets |
| `Autocomplete.BucketsKeepOrder` | docs/js/utils.js:150-159 | both buckets keep index order |
| `Autocomplete.Suggestions` | docs/js/utils.js:161 | at most ten suggestions, all records of the index |
| `Autocomplete.SuggestionsLayout` | docs/js/utils.js:161 | the list is the first min(10, prefix count) prefix matches, then substring matches up to ten in total |
| `Autocomplete.SuggestionsTiered` | docs/js/utils.js:161 | no substring-only match is listed before a prefix match |
| `Autocomplete.JsRem` | docs/js/utils.js:201 | JavaScript `%`: the dividend is the quotient rounded toward zero times `n` plus the result; in `[0, n)` for a non-negative dividend, in `(-n, 0]` for a negative one |
| `Autocomplete.NextActive` | docs/js/utils.js:199-208 | the handler's step: from a highlight or from none (-1), the arrow keys land inside the list; other keys keep the highlight |
| `Autocomplete.ArrowUpFromNone` | docs/js/utils.js:204-208 | ArrowUp with nothing highlighted and n ≥ 2 suggestions highlights position n-2, not the last one |
| `Autocomplete.ArrowKeysInverse` | docs/js/utils.js:199-208 | ArrowDown then ArrowUp, and ArrowUp then ArrowDown, return to the highlighted suggestion |
| `Autocomplete.ArrowKeysWrap` | docs/js/utils.js:199-208 | down from the last goes to the first, up from the first goes to the last, and down from none goes to the first |
| `Autocomplete.NextActiveCorrected` | docs/js/utils.js:199-208 | the intended step: from a highlight or from none, the arrow keys land inside the list; other keys keep the highlight |
| `Autocomplete.CorrectedAgrees` | docs/js/utils.js:199-208 | the intended step equals the handler's step exactly when a suggestion is highlighted, the key is not ArrowUp, or there is one suggestion |
| `Autocomplete.CorrectedFromNone` | docs/js/utils.js:199-208 | with the intended step, from none down goes to the first suggestion and up to the last |
| `Autocomplete.Controller.constructor` | docs/js/utils.js:132-135 | the widget starts with no highlight, no items and the list hidden |
| `Autocomplete.Controller.OnInput` | docs/js/utils.js:137-194 | resets the highlight; an empty trimmed query hides the list and keeps the old items; otherwise items become the suggestions, shown exactly when non-empty |
| `Autocomplete.Controller.OnKey` | docs/js/utils.js:196-219 | no items: nothing changes; otherwise the highlight takes the handler's step `NextActive`; Enter on a highlight navigates to that record's id, and only then; the detail page's lookup of that id finds a record |
| `Autocomplete.Controller.OnItemClick` | docs/js/utils.js:185-187 | a click on a suggestion navigates to its record's id, and the detail page's lookup of that id finds a record of the index |
| `Autocomplete.Controller.OnOutsideClick` | docs/js/utils.js:221-225 | an outside click hides the list and changes nothing else |
| `Server.MaxId` | admin-local/server.py:29 | the largest id of a non-empty index: no id exceeds it and some record has it |
| `Server.NextId` | admin-local/server.py:28-29 | the next id exceeds every id; 1 for an empty index; otherwise one more than some record's id |
| `Server.NextIdAfterAppend` | admin-local/server.py:83-100 | after appending the entry that got the next id, the next id is one more |
| `Server.AppendNextIdKeepsIncreasing` | admin-local/server.py:83-100 | appending with the next id keeps ids strictly increasing, so ids stay unique |
| `Server.SafeExt` | admin-local/server.py:32-38 | the lower-cased text after the last `.` when it is non-empty letters and digits, `jpg` otherwise; always a lower-case alphanumeric word |
| `Server.CoverFileName` | admin-local/server.py:84-87 | `<id>.<ext>`: the name holds a `.`, and its text after the last `.` is the sanitised extension |
| `Server.CoverNameKeepsExtension` | admin-local/server.py:84-89 | the stored name sanitises to the same extension: `SafeExt` of the stored name is `SafeExt` of the uploaded name |
| `Server.CoverFileNamesDistinct` | admin-local/server.py:87 | different ids give different cover file names, whatever the uploaded names |
| `Server.Rejection` | admin-local/server.py:70-80 | no error exactly when trimmed artist, album and review are non-empty and a cover was sent; a missing field gives the required-fields message, and with all fields present a missing cover gives the cover message |
| `Server.NewEntry` | admin-local/server.py:91-98 | the appended entry carries the new id |
| `Server.ReviewStore.constructor` | admin-local/server.py:82 | the store holds the loaded index and covers |
| `Server.ReviewStore.Next` | admin-local/server.py:61-64 | the count of reviews, and the next id with the guarantees of `NextId` |
| `Server.ReviewStore.Accept` | admin-local/server.py:82-103 | for a valid request: the cover is stored under `<id>.<ext>`, one entry with the next id is appended, the response repeats its id and cover, and increasing ids stay increasing |
| `Server.ReviewStore.PostReview` | admin-local/server.py:67-103 | a rejection gives its message and changes nothing; otherwise the cover is stored under `<id>.<ext>`, one entry with the next id is appended, and the response repeats its id and cover; increasing ids stay increasing |
| `Admin.CoverExtension` | admin-local/admin.js:47-49 | `jpg` for a name without `.`; otherwise the lower-cased text after the last `.` of the name; never holds a `.` |
| `Admin.BuildCoverUrl` | admin-local/admin.js:46-51 | `covers/<nextId>.<ext>` with the lower-cased text after the last `.`, or `jpg` when the name has no `.` |
| `Admin.CoverUrlAgreesWithServer` | admin-local/admin.js:46-51 | the previewed path is the path the server stores exactly when the name has no `.` or its extension is alphanumeric |
| `Admin.CoverPreview` | admin-local/admin.js:37-44 | empty exactly when no file is chosen or `nextId` is 0; otherwise the built cover path |
| `Admin.NextIdAfterSave` | admin-local/admin.js:101 | the returned id plus one, or the current id plus one when the answer has no id or id 0 |
| `Admin.SaveKeepsPageInStep` | admin-local/admin.js:101 | if the page's `nextId` was the server's, after a save it is the server's next id again |
| `Admin.AdminPage.constructor` | admin-local/admin.js:1-4 | the page starts at `nextId` 1, count 0, no file and an empty preview |
| `Admin.AdminPage.OnCoverChange` | admin-local/admin.js:70 | choosing a file updates the preview to match |
| `Admin.AdminPage.FetchNext` | admin-local/admin.js:25-35 | an answer sets count and `nextId` and refreshes the preview; a failure changes nothing |
| `Admin.AdminPage.Submit` | admin-local/admin.js:73-110 | nothing is sent without a cover; a failed save changes nothing; a successful one advances `nextId`, clears the file and empties the preview |
| `Text.Trim` | docs/js/utils.js:138 | the trimmed string is a slice of the input with white space only around it and none at either end |
| `Text.AfterLast` | admin-local/server.py:35 | the text after the last occurrence of the separator, which it does not contain |
| `Text.IntToStringInjective` | admin-local/server.py:87 | different ids render as different decimal strings |

## Left out

- `markdownToHtml` (docs/js/utils.js:55-101) is passed to `Html.ReviewToHtml` as a function parameter. Its line-by-line rendering is not modelled.
- Loading `reviews.json` (`loadReviews`) and all `fetch` calls are I/O. The index a page works on is a parameter or a field.
- Asynchrony is not modelled: `Admin.AdminPage.FetchNext` and `Admin.AdminPage.Submit` receive already-resolved answers (`NextInfo`, `SaveResult`).
- DOM effects are not modelled: element creation, the highlight markup of suggestions (docs/js/utils.js:164-191), the `active` class toggle (docs/js/utils.js:216-218), `preventDefault`, status messages, `updatePreview` and `el.nextId` text.
- `bindSearch`, `renderReview` and the page scripts outside these three files are not part of this model.
- The Flask asset routes (admin-local/server.py:41-58) are not modelled.
- `load_reviews` / `save_reviews` and the covers directory are the fields of `Server.ReviewStore`. Writing the cover file is modelled as a map update, so disk errors are not modelled.
- `Reviews.GetReviewById`: the id is already an integer; the `Number(id)` conversion of a string argument is not modelled.
- `Reviews.Review` and `Server.Entry`: record fields are assumed to be strings and integers. A record without an `artist` or `album` string, which would make the JavaScript throw, is not modelled.
- `Text.ToLower`, `Server.SafeExt` and `Server.IsAlnumWord`: case mapping and `isalnum` are ASCII-only. Unicode letters and digits are treated as non-letters.
- `Html.CollapseSpaces`: its own contract gives only the shape of the result. That a run of white space between two pieces becomes exactly one space is stated by `Html.CollapseConcat`, `Html.CollapseOfSpaces` and `Html.CollapseOfWords`.
- `Html.PlainText`: its own contract gives only the shape of the text. The single space between words is proved for two words (`Html.PlainTextOfWords`), not as a general characterisation.
- `Html.SnippetLong`: lengths count characters, not UTF-16 code units as JavaScript's `length` and `slice` do. A cut inside a surrogate pair cannot happen in the model.
- `Admin.NextIdAfterSave`: an id is an integer or absent. JavaScript's other falsy values (`NaN`, `""`) and floating-point ids are not modelled.
- `Admin.CoverPreview`: `nextId` is an integer. A non-numeric `nextId` from the server is not modelled.
- `Server.ReviewStore.PostReview`: a cover whose filename is missing (`None` in Flask) is modelled as an empty name. Both give `jpg`.
- `Autocomplete.Controller.OnInput`: an empty query clears the container but, as in the script, leaves `currentItems` as they were. Arrow keys and Enter then still act on hidden, stale suggestions. `Autocomplete.HiddenListStillNavigates` shows this also holds after an outside click. This is described here, not corrected.

## Findings

| source | as written | input that shows it | evidently intended | confidence | as-written member | corrected member |
|---|---|---|---|---|---|---|
| docs/js/utils.js:204-208 | ArrowUp sets the highlight to `(activeIndex - 1 + n) % n`; with nothing highlighted (`activeIndex` = -1) this is n-2 | three suggestions, nothing highlighted, ArrowUp: position 1 (the middle one) is highlighted | ArrowUp from no highlight goes to the last suggestion (n-1), mirroring ArrowDown going to the first | medium, not executed | `Autocomplete.ArrowUpFromNone` | `Autocomplete.NextActiveCorrected` |
