# BlogOS core logic in Dafny

This project models the pure, sequential logic of BlogOS, a personal blog. BlogOS has a React front-end and a small Spring backend. The model covers:

- **Markdown.** The line-by-line Markdown renderer, its inline `**bold**` / `[label](href)` splitter, and the table of contents built from the same headings.
- **Headings and categories.** The heading-id slug and the `/`-separated category tree.
- **Validation.** The username, password, e-mail and URL validators and the HTML, title and content sanitisers. These exist twice, once in the browser and once in the server, and the model proves the two agree.
- **Collections.** The list operations of the browser's local fallback store: posts, comments, memos, todos, schedules, and site-configuration defaults.
- **Backend posts.** The backend post service, over a store modelled as a map from id to post.
- **Rate limiting.** The backend's fixed-window, per-address rate limiter and its client-address extraction.
- **Views.** The filtering, paging, grouping, form and navigation rules inside the views:
  - the category list;
  - the home and index pages;
  - the admin dashboard and editor;
  - friend links and settings;
  - the personal calendar;
  - the comment section;
  - the app shell's `previousView` state machine.

Everything is immutable datatypes and pure functions over `seq` and `map`. There are a few methods with loops, for the pattern matchers.

**Inputs that become parameters.** Clocks, random ids and the current date are parameters.

**JavaScript and Java semantics.** Each of the following is written out as the source language behaves:

- JavaScript `||` on strings;
- `trim`;
- `split`, including Java's dropping of trailing empty pieces;
- `padStart`;
- code-unit `sort`;
- the lazy regular expressions;
- Java `int` wrap-around.

Strings are sequences of UTF-16 code units.

**Markdown scope.** The Markdown model follows MarkdownRenderer.tsx, which classifies each line on its own. A fuller Markdown dialect would have block aggregation, tables and alerts; the code has none of them, so they are not modelled.

**Module layout.** One module per source component:

| Module | Source |
|---|---|
| `Markdown`, `Inline` | MarkdownRenderer.tsx |
| `Toc` | TableOfContents.tsx |
| `Slug`, `CategoryTree` | lib/utils.ts |
| `Validation` | lib/validation.ts |
| `InputValidator` | InputValidator.java |
| `LocalApi`, `Records`, `Config` | lib/api.ts |
| `CommentTree` | the reply insertion shared by lib/api.ts and PostService.java |
| `PostService` | PostService.java |
| `RateLimit` | RateLimitInterceptor.java |
| `Listing`, `CategoryView`, `HomeView`, `AdminDashboard`, `AdminEditor`, `FriendLinks`, `SettingsView`, `PersonalDashboard`, `IndexView` | the views |
| `CommentSection` | CommentSection.tsx |
| `App` | index.tsx |

`Strings`, `Seqs` and `Wrappers` hold the generic helpers. `Types` mirrors types.ts and the backend model classes.

## Model

| member | source | states |
|---|---|---|
| Markdown.RenderSpec | components/MarkdownRenderer.tsx:6-38 | every line of the content gets exactly one slot, in order; a fence line gets an empty slot; any other line is rendered as code, verbatim, exactly when an odd number of fences precede it, so an unclosed fence turns the rest into code |
| Markdown.HeadingRule | components/MarkdownRenderer.tsx:39-50 | outside code a line is a heading iff it starts with `# `, `## ` or `### ` (so `#### ` falls through); the level is the number of `#`, and text, id and inline content come from what follows the marker |
| Markdown.HeadingText | components/MarkdownRenderer.tsx:40-49 | removing the first occurrence of the marker from a line that starts with it leaves the text after the leading marker |
| Markdown.QuoteRule | components/MarkdownRenderer.tsx:51-57 | outside code a line is a quote iff it is no heading and starts with `> `; each such line is its own quote showing the text after the marker |
| Markdown.BulletRule | components/MarkdownRenderer.tsx:58-68 | a bullet comes from a trimmed line starting with `- ` or `* `; it is nested iff the line is indented, and shows the trimmed line minus two units |
| Markdown.ImageRebuild | components/MarkdownRenderer.tsx:69 | the leftmost image match is `![`, the alternative text, `](`, the address and `)` |
| Markdown.FigureRule | components/MarkdownRenderer.tsx:69-76 | a figure shows the leftmost image of the line and nothing else of it: its alt and src rebuild that match |
| Markdown.FigureCaption | components/MarkdownRenderer.tsx:74 | a figure has a caption iff its alternative text is non-empty, and the caption is that text |
| Markdown.SearchImageNoBang | components/MarkdownRenderer.tsx:69 | a line without `!` holds no image |
| Markdown.BlankLine | components/MarkdownRenderer.tsx:78 | a line made only of white space, the empty line included, renders as a break |
| Markdown.BreakRule | components/MarkdownRenderer.tsx:78 | outside code a line renders as a break iff all its units are white space |
| Inline.ParseInlineSpec | components/MarkdownRenderer.tsx:9-22 | the split pieces concatenate back to the text and are cut leftmost-first: every match is captured where the search first finds it and no text piece holds one; there is an odd number of pieces and every captured (odd-numbered) piece renders as bold text or a link |
| Inline.SplitInlineLeftmost | components/MarkdownRenderer.tsx:10 | the split is leftmost-first: each text piece runs through positions where the pattern does not match and stops at the end or where it does, and the next piece is exactly that match |
| Inline.LeftmostSplitByUnique | components/MarkdownRenderer.tsx:10 | for any matcher that finds nothing at the very end of the text, at most one split is leftmost-first |
| Inline.SplitInlineUnique | components/MarkdownRenderer.tsx:10 | any split of the text that is leftmost-first is the split `parseInline` makes |
| Inline.MisplacedSplitRejected | components/MarkdownRenderer.tsx:10 | "**x", "** **", "y**" glues back to "**x** **y**" but is not leftmost-first, since the bold match at 0 is missed |
| Inline.SplitInlineConcat | components/MarkdownRenderer.tsx:10 | splitting with a capturing group loses nothing: the pieces glue back to the input |
| Inline.SplitFromOddMatch | components/MarkdownRenderer.tsx:10 | every odd-numbered piece of the split is a complete match of the alternation |
| Inline.BoldCloseSpec | components/MarkdownRenderer.tsx:10 | a lazy bold match closes at the first `**` after the opening one, with no line terminator in between |
| Inline.LinkCloseFirst | components/MarkdownRenderer.tsx:10 | the lazy label of a link ends at the first `](` from which an address can be closed, never a later one |
| Inline.ParenCloseSpec | components/MarkdownRenderer.tsx:10 | the address closes at the first `)` with only `.`-matchable units before it |
| Inline.MatchLocal | components/MarkdownRenderer.tsx:16 | a piece the split captured is matched again, in full, when matched on its own |
| Inline.BoldPiece | components/MarkdownRenderer.tsx:12-13 | a bold piece is `**`, a text with no `**` and no line terminator, `**`, and renders as that inner text |
| Inline.LinkPieceShape | components/MarkdownRenderer.tsx:15-18 | a link piece renders as the link with the label between `[` and its first `](` and the address up to the final `)` |
| Inline.LinkPieceRebuild | components/MarkdownRenderer.tsx:15-18 | label and address rebuild the link piece exactly |
| Inline.LinkPieceContent | components/MarkdownRenderer.tsx:16 | the label holds no `](`, the address no `)`, and neither a line terminator |
| Inline.ClassifyMatch | components/MarkdownRenderer.tsx:11-21 | a complete match is never shown as plain text |
| Inline.LoneStarsExample | components/MarkdownRenderer.tsx:12-13 | a lone `**` is not captured but still starts and ends with `**`, so it renders as empty bold text |
| Toc.TocFromLines | components/TableOfContents.tsx:7-15 | each entry comes from some line starting with `# ` or `## `, with that line's text, id and level |
| Toc.TocFromIsFilterMap | components/TableOfContents.tsx:7-15 | the table equals the reference definition: the lines starting with `# ` or `## `, filtered out in document order and mapped to entries |
| Toc.TocSpec | components/TableOfContents.tsx:7-15 | the table has one entry per `# ` / `## ` line, as often as the line occurs, in document order, and none from any other line |
| Toc.TocFromEmpty | components/TableOfContents.tsx:18 | the table is empty (nothing rendered) iff no line starts with `# ` or `## ` |
| Toc.StripMarkerHeading | components/TableOfContents.tsx:11-12 | for a level 1 or 2 line, the stripped `#`-run and one white-space unit are exactly the renderer's marker, and the level is the renderer's level |
| Toc.EntryMatchesHeading | components/TableOfContents.tsx:11-13 | for a heading line outside code, the entry's id and level are those of the heading the renderer draws |
| Toc.TocListsCodeLines | components/TableOfContents.tsx:9 | as written, a `# x` line inside a fenced block is listed although the renderer draws it as code and no heading carries its id |
| Toc.FencedToc | components/TableOfContents.tsx:7-15 | the three-line content fence, `# x`, fence yields the single entry "x" at level 1 |
| Toc.FencedRender | components/MarkdownRenderer.tsx:28-38 | the renderer draws the same three lines as nothing, the code line `# x`, nothing |
| Toc.TocOutsideFromLines | components/TableOfContents.tsx:7-15 | every entry of the fence-aware table is built from a line that is no fence, lies outside code and starts with `# ` or `## ` |
| Toc.TocOutsideCodeReachesHeadings | components/TableOfContents.tsx:7-15 | with the renderer's fence tracking, every entry points at a heading the renderer draws with the same id and level |
| Slug.CollapseFrom | lib/utils.ts:10 | the replacement is empty iff its input is, keeps each kept unit, turns each run of other units into `-`, and never yields two adjacent dashes |
| Slug.GenerateHeadingIdShape | lib/utils.ts:10 | the id contains only lower-case word units, CJK ideographs U+4E00–U+9FA5 and single dashes |
| Slug.CollapseRunsIsScan | lib/utils.ts:10 | the regex replace equals an independent left-to-right scan that emits one `-` on entering a run |
| Slug.CollapseRunsKeepsKept | lib/utils.ts:10 | the kept units come through in order, none dropped or added |
| Slug.CollapseRunsFixpoint | lib/utils.ts:10 | a text of kept units and single dashes is left unchanged |
| Slug.GenerateHeadingIdIdempotent | lib/utils.ts:10 | applying the slug to a slug changes nothing |
| Slug.HelloExample | lib/utils.ts:10 | "Hi, 你好" becomes "hi-你好" |
| CategoryTree.FindIndex | lib/utils.ts:30 | `find` returns the first node with the name, and none exactly when no node has it |
| CategoryTree.InsertPathNames | lib/utils.ts:30-39 | inserting a path keeps existing siblings in place and only appends, one new node when the name is missing and none when it is present |
| CategoryTree.InsertPathFinds | lib/utils.ts:28-42 | after inserting, every leading part of the path leads to a node |
| CategoryTree.InsertPathKeeps | lib/utils.ts:28-42 | inserting loses no node that was reachable |
| CategoryTree.InsertPathOnly | lib/utils.ts:28-42 | inserting adds no node off its own path |
| CategoryTree.BuildFromLookup | lib/utils.ts:22-43 | folding categories into a tree reaches exactly the old nodes and the leading parts of the categories other than "All" |
| CategoryTree.BuildCategoryTreeLookup | lib/utils.ts:19-46 | the tree holds exactly the leading parts of the categories, "All" skipped |
| CategoryTree.InsertPathWellFormed | lib/utils.ts:29-39 | inserting keeps siblings' names distinct and each node's path its parent's path joined with its name |
| CategoryTree.BuildCategoryTreeWellFormed | lib/utils.ts:19-46 | the built tree never has two siblings of the same name and each `fullPath` is the path walked to reach the node |
| CategoryTree.LookupPath | lib/utils.ts:29 | the node reached by following names has the joined path as `fullPath` |
| CategoryTree.FoldPathJoin | lib/utils.ts:29 | walking parts from a non-empty path joins them all with `/` |
| CategoryTree.CategoryFullPath | lib/utils.ts:24-35 | the node of a category not starting with `/` carries the category itself as its path (so "a/b/c" gives the chain "a", "a/b", "a/b/c") |
| CategoryTree.LeadingSlashExample | lib/utils.ts:29 | a leading `/` makes a node named "" whose child's path lacks the slash, the empty path counting as false |
| Validation.MatchUsername | lib/validation.ts:8-9 | the scan accepts exactly the strings of 3 to 20 units from `[a-zA-Z0-9_]` |
| Validation.ValidateUsername | lib/validation.ts:6-10 | a name is valid iff it has 3 to 20 units all from `[a-zA-Z0-9_]`; the empty-string test never changes the verdict |
| Validation.PasswordPatternIsRule | lib/validation.ts:20 | read literally with look-aheads through `.`, the password pattern means: eight or more allowed units, a letter and a digit among them |
| Validation.MatchPassword | lib/validation.ts:20-21 | the one-pass scan accepts exactly the passwords of that rule |
| Validation.ValidatePassword | lib/validation.ts:17-22 | a password is valid iff it has 8+ allowed units with a letter and a digit |
| Validation.HtmlEntitiesNonInterfering | lib/validation.ts:33-37 | no entity written by one replace contains a unit a later replace touches (`&` goes first) |
| Validation.ChainChar | lib/validation.ts:33-37 | the five chained replaces turn one unit into its entity |
| Validation.SanitizeHtmlIsEscape | lib/validation.ts:29-38 | the chained global replaces equal escaping each unit independently |
| Validation.SanitizeHtmlNoMarkup | lib/validation.ts:32-37 | the escaped text contains no `<`, `>`, `"` or `'` |
| Validation.SanitizeHtmlRoundTrip | lib/validation.ts:29-38 | decoding the five entities gives the input back, so every other unit is copied unchanged and nothing is lost |
| Validation.Truncate | lib/validation.ts:49-51 | the cut is the input itself when short enough and otherwise its prefix of exactly the maximum length |
| Validation.SanitizeTitleSpec | lib/validation.ts:45-55 | the title decodes to its first 200 units and carries no markup (its own length may exceed 200) |
| Validation.SanitizeContent | lib/validation.ts:62-71 | the content is cut to its prefix of length min(len, 102400) |
| Validation.SanitizeContentIdempotent | lib/validation.ts:62-71 | cutting content twice is cutting it once |
| InputValidator.IsValidUsername | backend/src/main/java/com/blogos/util/InputValidator.java:28-33 | a name is valid iff present and matching the username pattern; the blank test never decides |
| InputValidator.IsValidPassword | backend/src/main/java/com/blogos/util/InputValidator.java:40-45 | a password is valid iff present and meeting the 8+ / letter / digit / allowed-units rule |
| InputValidator.IsValidEmail | backend/src/main/java/com/blogos/util/InputValidator.java:52-57 | an address is valid iff present and matching local part, `@`, domain ending in a dot and two letters |
| InputValidator.IsValidUrl | backend/src/main/java/com/blogos/util/InputValidator.java:64-69 | a URL is valid iff present and matching scheme, host, `.letters` groups and optional path |
| InputValidator.PatternNotBlank | backend/src/main/java/com/blogos/util/InputValidator.java:53-56 | a string the e-mail or URL pattern accepts is never blank after `trim` |
| InputValidator.MatchDomain | backend/src/main/java/com/blogos/util/InputValidator.java:18 | a scan remembering the last dot accepts exactly the domains of the e-mail pattern |
| InputValidator.DomainHost | backend/src/main/java/com/blogos/util/InputValidator.java:18 | every unit of a domain the e-mail pattern accepts is a host unit (letters, digits, `.`, `-`) |
| InputValidator.DomainLastDot | backend/src/main/java/com/blogos/util/InputValidator.java:18 | an accepted domain splits at its last dot, followed by two or more letters |
| InputValidator.HostPatternIsDomain | backend/src/main/java/com/blogos/util/InputValidator.java:21 | repeating the `.letters` group adds nothing: the URL host pattern accepts exactly the e-mail domains |
| InputValidator.SchemesExclusive | backend/src/main/java/com/blogos/util/InputValidator.java:21 | no URL starts with both "http://" and "https://", so the optional `s` decides the scheme alone |
| InputValidator.UrlRestAtSlash | backend/src/main/java/com/blogos/util/InputValidator.java:21 | after the scheme, the host ends at the first `/` and the rest must be an optional path |
| InputValidator.MatchUrl | backend/src/main/java/com/blogos/util/InputValidator.java:21 | the scan accepts exactly the URLs of the pattern |
| InputValidator.EmailAt | backend/src/main/java/com/blogos/util/InputValidator.java:18 | the pattern's `@` can only be the first unit that is not a local-part unit |
| InputValidator.MatchEmail | backend/src/main/java/com/blogos/util/InputValidator.java:18 | the scan accepts exactly the e-mail addresses of the pattern |
| InputValidator.JavaSanitizeHtml | backend/src/main/java/com/blogos/util/InputValidator.java:76-87 | null stays null; any string is escaped unit by unit and decodes back to itself |
| InputValidator.JavaSanitizeTitle | backend/src/main/java/com/blogos/util/InputValidator.java:94-106 | null becomes ""; any other title is cut to 200 units, then escaped |
| InputValidator.JavaSanitizeContent | backend/src/main/java/com/blogos/util/InputValidator.java:113-124 | null becomes ""; any other content is cut to its first min(len, 102400) units |
| InputValidator.FrontAndBackAgree | backend/src/main/java/com/blogos/util/InputValidator.java:12-15 | for every non-null string the server and the browser give the same username and password verdicts and the same sanitised HTML, title and content |
| Records.IndexOfId | lib/api.ts:292 | `findIndex` returns the first record with the id, and none exactly when no record has it |
| Records.RemoveIdSpec | lib/api.ts:307 | deleting by id (also lines 425, 484, 530) keeps every copy of each record with another id, in order, drops every record with the id, and changes nothing when no record has the id |
| LocalApi.ClearFeatured | lib/api.ts:291 | every post loses its flag and nothing else changes |
| LocalApi.AddOrUpdatePostSpec | lib/api.ts:290-295 | the post replaces the first post with its id, or goes in front; every other position holds the post that was there (shifted when prepended), un-featured when the saved post is featured |
| LocalApi.AddOrUpdatePostOneFeatured | lib/api.ts:291-294 | after saving a featured post it is the only featured post |
| LocalApi.LikePost | lib/api.ts:316-328 | an unknown id gives null and changes nothing; otherwise only the first matching post changes, to (likes or 0) + 1 |
| LocalApi.AddComment | lib/api.ts:344-382 | an unknown post gives null; otherwise only the first post with the id changes, and only in its comments, which receive the new comment (fresh id, today's date, no replies) by the reply placement rule |
| LocalApi.WithCommentSpec | lib/api.ts:355-380 | the new comment is never lost: it goes under the first comment with the parent id in visiting order, and at the top level when no parent is named or found |
| LocalApi.DeleteAddedMemo | lib/api.ts:409-427 | deleting a memo just added in front under a fresh id gives the old list back |
| LocalApi.ToggleTodo | lib/api.ts:470 | only todos with the id flip `completed`; every other field and todo stays |
| LocalApi.ToggleTodoTwice | lib/api.ts:470 | toggling twice restores the list |
| LocalApi.DeleteAddedTodo | lib/api.ts:455-484 | the added todo is open and last, and deleting it under its fresh id gives the old list back |
| LocalApi.AddScheduleSpec | lib/api.ts:514-516 | the new list is sorted by time, is a permutation of the old schedules plus the new one, and schedules at equal times keep their order, the new one last |
| CommentTree.AttachFinds | backend/src/main/java/com/blogos/service/PostService.java:107-118 | the recursive search succeeds iff some comment at any depth has the parent id |
| CommentTree.AttachIsFirstMatch | lib/api.ts:356-367 | when it succeeds it attaches under the first comment with the id in pre-order (node before its replies, replies before later siblings) |
| CommentTree.AttachNthSpec | lib/api.ts:358-361 | attaching under position n adds the reply and its subtree, and the node at n gains the reply as its last child |
| Config.MergeConfigGet | lib/api.ts:248-260 | every property of the completed configuration, as a function of the default and the loaded object; a nested string or array contributes its elements under their index keys |
| Config.MergeConfigTop | lib/api.ts:248-260 | outside the nested objects a loaded value wins and a missing one comes from the defaults; `friendLinks` and `friendsMessage` also fall back when falsy; no default property goes missing |
| Config.SpreadGet | lib/api.ts:251 | in a nested spread the loaded property wins and the default fills in, for the properties each value lends to a spread (object fields, array or string index keys) |
| Config.MergeConfigNested | lib/api.ts:251-257 | inside `seo`, `sso` and `profile` each property is the loaded one if present, else the default, where a loaded string or array is present at its index keys |
| Config.MergeConfigSocials | lib/api.ts:255 | `profile.socials` is completed property by property one level further down, a string or array `socials` lending its index keys |
| Config.FieldsGet | lib/api.ts:251-257 | spreading a nested value, or `{}` in place of a falsy one, copies an object's fields, an array's elements and a string's units under the keys "0", "1", …, and nothing from `null`, a boolean or a number |
| Config.IndexFieldsGet | lib/api.ts:251-257 | the keys spread from a list are exactly the decimal numerals of its indices, each holding its element |
| Config.ParseIndexKey | lib/api.ts:251-257 | an index key reads back as its index, so distinct indices give distinct keys |
| Config.StringSeoSpreadsUnits | lib/api.ts:251 | a stored `seo` of "ab" keeps the default title and gains the keys "0" and "1" |
| Config.MergeConfigDomain | lib/api.ts:248-260 | the completed object keeps every default property and adds only loaded ones and `seo`, `profile`, `sso`, `friendLinks`, `friendsMessage` |
| Config.GetConfig | lib/api.ts:244-261 | nothing stored completes the defaults by themselves; a stored `null` throws and yields the defaults; any other stored value is spread, keeping every default property and adding only its own and the nested objects |
| Config.MergeConfigIdempotent | lib/api.ts:549-561 | completing an already completed configuration (the second merge after the fetch) changes nothing |
| PostService.AssignId | backend/src/main/java/com/blogos/service/PostService.java:39-41 | a non-empty id is kept |
| PostService.ClearAllFeatured | backend/src/main/java/com/blogos/service/PostService.java:45-47 | every stored post loses its flag and nothing else changes |
| PostService.SavePostSpec | backend/src/main/java/com/blogos/service/PostService.java:37-50 | the saved post is the input with a settled id, fresh iff the id was null or empty; it is stored under that id; other posts are kept, un-featured when it is featured |
| PostService.SavePostKeepsOneFeatured | backend/src/main/java/com/blogos/service/PostService.java:45-49 | saving keeps at most one featured post, and a featured saved post is the only one |
| PostService.DeletePost | backend/src/main/java/com/blogos/service/PostService.java:67-69 | exactly the id is removed from the store, the rest unchanged |
| PostService.DeleteSavedPost | backend/src/main/java/com/blogos/service/PostService.java:37-69 | deleting an unfeatured post saved under a fresh id restores the store |
| PostService.AddComment | backend/src/main/java/com/blogos/service/PostService.java:80-97 | an unknown post gives null and no change; otherwise only that post changes, only in its comments, which receive the stamped comment by the backend placement rule |
| PostService.Stamp | backend/src/main/java/com/blogos/service/PostService.java:85-86 | a supplied comment id is kept, even an empty one, and only a missing id is replaced by the fresh one; the date becomes the current time; no other field changes |
| PostService.AddCommentPlaces | backend/src/main/java/com/blogos/service/PostService.java:87-93 | in a known post the stamped comment is appended without a parent id, becomes the last reply of the first pre-order match of the parent id, or is dropped, leaving the post unchanged, when no comment has that id |
| PostService.BackendWithCommentSpec | backend/src/main/java/com/blogos/service/PostService.java:87-93 | a blank parent appends; a found parent gets the comment under its first pre-order match; a missing parent drops the comment and leaves the tree unchanged |
| PostService.BackendAndFallbackOnReplies | backend/src/main/java/com/blogos/service/PostService.java:92 | backend and local fallback agree when the parent exists; for a missing parent the backend drops the reply and the fallback appends it at the top level |
| PostService.WrapInt | backend/src/main/java/com/blogos/service/PostService.java:131 | Java `int` arithmetic: the result is in range and congruent modulo 2^32 |
| PostService.LikePost | backend/src/main/java/com/blogos/service/PostService.java:127-135 | an unknown id gives null; otherwise only that post's likes change |
| PostService.LikePostCount | backend/src/main/java/com/blogos/service/PostService.java:131 | a like adds exactly one, except that the largest `int` wraps to the smallest |
| RateLimit.Limit | backend/src/main/java/com/blogos/interceptor/RateLimitInterceptor.java:40-60 | the limit is 10 iff the URI ends with "/api/login", 60 otherwise |
| RateLimit.PreHandleSpec | backend/src/main/java/com/blogos/interceptor/RateLimitInterceptor.java:35-76 | every request is counted, in a fresh window iff the address is new or its window is more than 60000 ms old; it passes iff the new count is within the endpoint's limit; no other address changes |
| RateLimit.RunWithinWindow | backend/src/main/java/com/blogos/interceptor/RateLimitInterceptor.java:50-72 | inside one window the count grows by one per request and the i-th passes iff the count it reaches is within its own limit, whatever the earlier endpoints |
| RateLimit.FirstMaxPass | backend/src/main/java/com/blogos/interceptor/RateLimitInterceptor.java:57-72 | from a zero count, exactly the first `max` requests to one endpoint in the window pass |
| RateLimit.SharedCounter | backend/src/main/java/com/blogos/interceptor/RateLimitInterceptor.java:46-60 | after ten requests to any endpoints in one window, a login request is refused |
| RateLimit.ResetIpCount | backend/src/main/java/com/blogos/interceptor/RateLimitInterceptor.java:159-166 | a known address's count restarts at zero in the same window; an unknown address gets no entry; others unchanged |
| RateLimit.ClearAllRecords | backend/src/main/java/com/blogos/interceptor/RateLimitInterceptor.java:171-173 | the map becomes empty |
| RateLimit.ClearedAdmitsAnyone | backend/src/main/java/com/blogos/interceptor/RateLimitInterceptor.java:171-173 | after clearing, the next request from any address opens a new window at count one and passes |
| RateLimit.FirstUsable | backend/src/main/java/com/blogos/interceptor/RateLimitInterceptor.java:98-100 | the header chosen is the first in the list that is present, non-empty and not "unknown" in any case, and none exactly when no header is usable |
| RateLimit.Normalize | backend/src/main/java/com/blogos/interceptor/RateLimitInterceptor.java:106-108 | the IPv6 loopback never comes out; any other address is unchanged |
| RateLimit.DropTrailingEmpty | backend/src/main/java/com/blogos/interceptor/RateLimitInterceptor.java:103 | Java's split keeps a prefix of the pieces, empty iff all pieces are empty |
| RateLimit.ClientIpSpec | backend/src/main/java/com/blogos/interceptor/RateLimitInterceptor.java:81-120 | the address is the first usable header cut at its first comma and trimmed, or the connection's address when none is usable; never the IPv6 loopback and never with a comma |
| RateLimit.FirstSegmentAgrees | backend/src/main/java/com/blogos/interceptor/RateLimitInterceptor.java:102-104 | the written indexing fails exactly on a non-empty value made only of commas, and otherwise equals the corrected first segment |
| RateLimit.ClientIpAgrees | backend/src/main/java/com/blogos/interceptor/RateLimitInterceptor.java:81-120 | whenever the written extraction succeeds it yields the corrected one's address |
| RateLimit.LoneCommaFails | backend/src/main/java/com/blogos/interceptor/RateLimitInterceptor.java:103 | an `X-Forwarded-For` of "," makes the written extraction fail |
| Listing.CategoryLabel | views/AdminDashboard.tsx:59 | the label is never empty and is the category itself when that is non-empty |
| Listing.CategoryListSpec | index.tsx:64 | the list is "All" then each post's label once, in first-occurrence order, with no empty entry |
| Listing.Page | views/CategoryPostListView.tsx:109 | `slice(0, n)` is the prefix of length min(n, len) |
| Listing.PageSpec | views/CategoryPostListView.tsx:255-258 | load-more shows iff the page is shorter than the list; a larger count shows a longer prefix of the same list |
| CategoryView.FilteredPostsSpec | views/CategoryPostListView.tsx:97-106 | the list holds the posts matching the title/excerpt search and the selection (itself or below it), each as often as in the list, in original order, and no other post |
| CategoryView.UnderIsPathPrefix | views/CategoryPostListView.tsx:103 | "Design" selects "Design/UI" but not "Designer" |
| CategoryView.UnderTransitive | views/CategoryPostListView.tsx:103 | a category below a subcategory is below its parent |
| CategoryView.NarrowerSelection | views/CategoryPostListView.tsx:103 | selecting a subcategory never shows a post its parent does not |
| CategoryView.InPathSpec | views/CategoryPostListView.tsx:36 | `isSelected`, which the component computes and never reads, holds iff the selection is the node's path or lies below it; for such a node its path lists every post the selection lists |
| CategoryView.HighlightedPathsSpec | views/CategoryPostListView.tsx:44-56 | a node is highlighted only when its path equals the selection, so no ancestor of the selection is; the number of highlighted nodes is the number of nodes whose path is the selection |
| CategoryView.SubcategoryHighlightsOnlyItself | views/CategoryPostListView.tsx:36-55 | selecting "Design/UI" highlights that node but not "Design", for which `isSelected` holds |
| CategoryView.Displayed | views/CategoryPostListView.tsx:109 | the page is the first min(9 × (presses + 1), len) filtered posts |
| CategoryView.LoadMoreSpec | views/CategoryPostListView.tsx:255-258 | the button shows exactly while posts are hidden; each press extends the prefix by nine or to the end |
| HomeView.FilteredPostsSpec | views/HomeView.tsx:181-190 | the list holds the posts matching the title/excerpt/author search and the substring category rule, each as often as in the list, in original order, and no other post |
| HomeView.WiderThanCategoryView | views/HomeView.tsx:188 | the substring rule admits everything the prefix rule admits, and more ("Designer" for "Design") |
| HomeView.LayoutSpec | views/HomeView.tsx:194-196 | featured plus grid are the first 1 + 6 × (presses + 1) filtered posts; featured is absent iff the list is empty; the grid never repeats position 0; more remain iff posts are left over |
| AdminDashboard.FilteredPostsSpec | views/AdminDashboard.tsx:63-71 | the list holds the posts whose title or non-empty author matches and whose raw category equals the selection unless "All", each as often as in the list, in original order, and no other post |
| AdminDashboard.UncategorizedMissesEmpty | views/AdminDashboard.tsx:58-68 | when a post has no category, "Uncategorized" is offered but selecting it never lists such a post |
| AdminDashboard.MemoTagsSpec | views/AdminDashboard.tsx:79 | each tag is non-empty, trimmed and free of both commas; the tags are exactly the non-empty trimmed pieces |
| AdminDashboard.MemoTagsRoundTrip | views/AdminDashboard.tsx:79 | proper tags joined by ", " read back unchanged, including no tags, whose empty text reads back as none |
| AdminDashboard.MemoTagsIdempotent | views/AdminDashboard.tsx:79 | reading the tag text is idempotent on its own output, for every text |
| AdminDashboard.HandleAddMemo | views/AdminDashboard.tsx:76-86 | blank content changes nothing; otherwise the memo goes in front with the content as typed, images only for a non-empty URL, tags only when some remain, and the form is cleared |
| AdminEditor.InitialForm | views/AdminEditor.tsx:15-23 | a new post opens with the defaults; an edited one with its fields, each empty one replaced by its default, and its tags joined by ", " |
| AdminEditor.DefaultExcerpt | views/AdminEditor.tsx:73 | the default excerpt is the first min(len, 100) units of the content followed by "..." |
| AdminEditor.BuildPostSpec | views/AdminEditor.tsx:64-80 | no post without title and content; an edited post keeps its non-empty id and date, a new one gets the fresh ones; an empty excerpt defaults; tags are trimmed, non-empty and comma-free; other fields are the form's |
| AdminEditor.FormTagsRoundTrip | views/AdminEditor.tsx:75 | tags shown as `join(", ")` (line 20) read back as the same tags |
| AdminEditor.SaveUnchangedIsIdentity | views/AdminEditor.tsx:69-80 | with comments and likes carried over, opening a post and saving it unedited gives back the same post |
| AdminEditor.SaveUnchangedWipesComments | views/AdminEditor.tsx:69-80 | as written, saving an unedited post that has comments or likes yields a post with neither, which the store puts in its place |
| FriendLinks.GroupKey | views/FriendLinksView.tsx:29 | the key is never empty and is the link's category when that is non-empty |
| FriendLinks.GroupsAt | views/FriendLinksView.tsx:23-35 | in the intended grouping a group exists iff some link has its key, and holds exactly those links, in configuration order |
| FriendLinks.GroupKeySpec | views/FriendLinksView.tsx:27-32 | in the intended grouping groups are never empty and hold only links with their key |
| FriendLinks.LinkInItsGroup | views/FriendLinksView.tsx:28-32 | in the intended grouping every link is in the group named by its key |
| FriendLinks.SortedCategoriesSpec | views/FriendLinksView.tsx:38 | the category list is sorted by code units, has no repeats, and names exactly the groups of the intended grouping |
| FriendLinks.GroupsAsWrittenSpec | views/FriendLinksView.tsx:23-35 | the grouping as written on a plain object literal crashes exactly when some link's group name is a property name inherited from `Object.prototype`, and otherwise builds the intended groups |
| FriendLinks.ConstructorCategoryCrashes | views/FriendLinksView.tsx:30-31 | one link in the category "constructor" makes the grouping as written throw |
| FriendLinks.NoLinksNoGroups | views/FriendLinksView.tsx:27 | absent or empty links give no groups and no categories |
| SettingsView.AddFriendLink | views/SettingsView.tsx:37-56 | without name and URL nothing changes; otherwise the link goes last with category defaulting to "默认分类" and the form is cleared |
| SettingsView.DeleteFriendLinkSpec | views/SettingsView.tsx:62-67 | deletion keeps every copy of each link with another id, in order, and drops every link with the id; an absent list stays absent |
| SettingsView.DeleteAddedLink | views/SettingsView.tsx:37-67 | deleting a link just added under a fresh id gives back the list it was added to |
| SettingsView.AddedLinkGroup | views/SettingsView.tsx:46 | a link added without a category is listed on the friends page under "默认分类", not "其他资源" |
| SettingsView.SkillsRoundTrip | views/SettingsView.tsx:252-257 | skills shown one per line and read back come out unchanged |
| SettingsView.KeywordsRoundTrip | views/SettingsView.tsx:295 | a non-empty list of trimmed, comma-free keywords shown joined by ", " reads back unchanged, empty keywords included |
| SettingsView.NoKeywordsReadAsOne | views/SettingsView.tsx:295 | the empty keyword list shows as "", which reads back as one empty keyword |
| SettingsView.EnterAtEndIsLost | views/SettingsView.tsx:252-257 | as written, pressing Enter after the last skill leaves skills and text area as they were |
| SettingsView.TypeNewSkillLine | views/SettingsView.tsx:252-257 | a field that keeps its text shows the skills, and Enter plus a new skill appends that skill |
| PersonalDashboard.Pad2 | views/PersonalDashboard.tsx:86 | the padded number consists of digits only |
| PersonalDashboard.Pad2Value | views/PersonalDashboard.tsx:129 | numbers below 100 pad to exactly two digits that read back as the number |
| PersonalDashboard.DateKeyRoundTrip | views/PersonalDashboard.tsx:129 | a key reads back as the year, zero-based month and day it was made from |
| PersonalDashboard.DateKeyInjective | views/PersonalDashboard.tsx:129 | different dates never share a key |
| PersonalDashboard.DateKeyShape | views/PersonalDashboard.tsx:129 | a four-digit year gives the ten-unit `YYYY-MM-DD` with dashes at 4 and 7 |
| PersonalDashboard.DayTodosSpec | views/PersonalDashboard.tsx:48 | the day's todos are those with the date, each as often as in the list, in list order, and no other todo |
| PersonalDashboard.DaySchedulesSpec | views/PersonalDashboard.tsx:49 | the day's schedules are sorted by time, a permutation of the date's schedules, stable at equal times |
| PersonalDashboard.DaySchedulesMembers | views/PersonalDashboard.tsx:49 | the day's schedules are exactly those with the date |
| PersonalDashboard.HasEventMatchesDayLists | views/PersonalDashboard.tsx:85-88 | a day has a marker iff selecting it lists a schedule or an open todo |
| PersonalDashboard.AddTodo | views/PersonalDashboard.tsx:51-57 | blank text adds nothing; otherwise the store's add runs for the selected day and the field clears |
| PersonalDashboard.AddSchedule | views/PersonalDashboard.tsx:59-66 | a blank title or time adds nothing; otherwise the store's add runs and both fields clear |
| PersonalDashboard.AddedTodoMarksDay | views/PersonalDashboard.tsx:51-57 | an added todo is the last of its day's list and marks the day |
| PersonalDashboard.AddedScheduleMarksDay | views/PersonalDashboard.tsx:59-66 | an added schedule appears among its day's schedules and marks the day |
| IndexView.FeaturedPostSpec | views/IndexView.tsx:236 | the featured post is the first flagged post, else the first post, and none only for an empty list |
| IndexView.FirstFeaturedSpec | views/IndexView.tsx:236 | the search from any position finds nothing only for an empty list, the first flagged post at or after the position when there is one, and the list's first post otherwise |
| IndexView.LatestPostsSpec | views/IndexView.tsx:238 | at most three posts: the first three of those without the featured id, in list order |
| IndexView.FeaturedNotRepeated | views/IndexView.tsx:236-238 | with unique ids the featured post is not among the latest |
| IndexView.IconForBands | views/IndexView.tsx:225-233 | a code gets a band's icon iff it lies in the band, lightning iff ≥ 95, and the plain sun exactly for negative codes and the gaps |
| IndexView.CityQuery | views/IndexView.tsx:185-190 | the name looked up is the field as typed |
| IndexView.CityQueryBlank | views/IndexView.tsx:187 | nothing is requested iff the field is all white space |
| CommentSection.CountVersusSize | components/CommentSection.tsx:126 | the heading's count never exceeds the comments in the tree and equals it iff no reply has replies |
| CommentSection.RenderedSpec | components/CommentSection.tsx:88-145 | every comment is rendered once in pre-order, and a reply form can be open only on a top-level comment with the target id |
| CommentSection.NestedReplyOpensNothing | components/CommentSection.tsx:95 | targeting a nested comment opens no form anywhere |
| CommentSection.SubmitComment | components/CommentSection.tsx:111-116 | blank text submits nothing and changes nothing; otherwise the text goes out with the name or "Guest" and the field clears |
| CommentSection.SubmitReply | components/CommentSection.tsx:28-34 | a blank reply submits nothing; otherwise it goes out under the item's id with the name or "Guest", its text clears and no form stays open |
| CommentSection.SubmittedReplyClosesForms | components/CommentSection.tsx:118-121 | after a reply is submitted no item shows a reply form |
| CommentSection.ReplyFromOpenFormAttaches | components/CommentSection.tsx:137-145 | a reply written in an open form has an existing parent, so backend and fallback attach it in the same place |
| App.NavigateTo | index.tsx:66-75 | the view becomes the target; the active post changes only to a supplied id; the remembered view changes only when entering a post from home or the category list |
| App.StepKeepsGood | index.tsx:66-71 | every handler keeps the remembered view a list view, including the category list's own setters |
| App.ListFiltersStay | index.tsx:164-171 | the category list's `setSelectedCategory` and `setGlobalSearch` change only the selection or the query, and only while the list is on screen; view, remembered view, active post and session stay |
| App.ReplayKeepsGood | index.tsx:66-71 | any sequence of handlers keeps the remembered view a list view |
| App.ReachableGood | index.tsx:20-21 | the app starts at home, signed out, remembering home, and every reachable state remembers a list view |
| App.NoLoginNoAuth | index.tsx:178-223 | without a login event nobody is signed in and no protected view renders |
| App.LogoutLocks | index.tsx:125-128 | logout returns home, signs out, and hides protected views until the next login |
| App.OpenThenBack | index.tsx:182-185 | opening a post from a list and pressing back returns to that list with the post still active |

## Left out

- Network and persistence: `fetchWithFallback`, `localStorage`, JSON (de)serialisation, `exportData`/`importData`. Only the list transformations inside the fallback closures are modelled; a store is an input sequence and the saved list is the output.
- Clocks and randomness become parameters:
  - `generateId` and the ad-hoc id in SettingsView;
  - `new Date()`;
  - `LocalDateTime.now()`;
  - `System.currentTimeMillis()`.
- Calendar arithmetic: the current month, `daysInMonth` and `changeMonth` in PersonalDashboard. `formatDate` with `Intl` is left out too, because it is locale formatting.
- The rate limiter's `RequestInfo` constructor reads the clock again. The model takes `now` for a new entry. The constructor's reading is never earlier than `now`, so no window restarts on the first request either way.
- Concurrency in the rate limiter (`ConcurrentHashMap`, `synchronized`, atomics): requests are handled one at a time. `getRateLimitStatus` and logging are reporting only.
- RateLimit.PreHandleSpec: the request counter is unbounded. The Java `AtomicInteger` would wrap after 2^31 requests in one window.
- RateLimit.FirstUsable: `getHeader` is case-insensitive in the servlet API. The headers map is looked up by exact name.
- ApiController.java: Spring plumbing, SHA-256 password hashing and a clock-stamped token. Its `getClientIpAddress` is a copy of the interceptor's, which `RateLimit.ClientIp` models.
- Strings.Lower: `toLowerCase` is modelled for ASCII letters only. Full Unicode case folding is not modelled.
- Strings are modelled as UTF-16 code units, which matches JavaScript `length` and `substring`.
- LocalApi.AddScheduleSpec: `localeCompare` is modelled as code-unit order. It agrees with locale order on the zero-padded `HH:MM` times the forms produce. The sort is stable, as `Array.prototype.sort` is.
- Config: JSON numbers are kept as integers and booleans and strings as they are. No merge rule looks inside a number.
- Config.GetConfig: takes the stored value already parsed. Text that is not valid JSON makes `JSON.parse` throw, and the catch returns the defaults; parsing is not modelled.
- Absent optional fields: `likes`, `comments` and `replies` are modelled as 0 or empty, since the code only reads them as `likes || 0` and `comments || []`. An absent `featured` is `false`.
- The Markdown dialect beyond the code is not modelled: tables, alerts, task lists, ordered lists, italic, inline code and multi-line paragraphs. MarkdownRenderer.tsx has none of them.
- Rendering: all JSX, CSS, animations, timers and scrolling. The view logic is modelled; the markup is not.
- IndexView external data: the weather, quote and geocoding fetches, `encodeURIComponent`, and the progress bar.
- The AI excerpt generation in AdminEditor.
- AdminLogin's password check, Navbar, ProfileView, MemosView and PostDetail. They are not part of this model.
- JPA entities, repositories, configuration classes, the exception handler and RateLimitTestUtil. The model's datatypes mirror the entity fields; there is no behaviour there to verify.
- PersonalDashboard.DateKeyRoundTrip: stated for months and days below 100. For larger numbers `padStart` gives three digits and the key cannot be read back.

## Findings

| source | as written | input that shows it | evidently intended | confidence | as-written member | corrected member |
|---|---|---|---|---|---|---|
| components/TableOfContents.tsx:9 | every line starting `# ` or `## ` is listed, fenced code included | content "```\n# x\n```": the table lists "x", but the renderer draws `# x` as code, so the link has no target | skip lines inside fences, as the renderer does | high, not executed | Toc.TocListsCodeLines | Toc.TocOutsideCodeReachesHeadings |
| backend/src/main/java/com/blogos/interceptor/RateLimitInterceptor.java:103 | `ip.split(",")[0]` indexes the split result | header `X-Forwarded-For: ,`: Java's split drops trailing empty pieces, the array is empty and the index throws | take the text before the first comma, trimmed | high, not executed | RateLimit.LoneCommaFails | RateLimit.ClientIpAgrees |
| views/AdminEditor.tsx:69-80 | the saved Post literal omits `comments` and `likes` | open a post with comments in the editor and save without edits: the store replaces it with a post without comments and likes | an edited post keeps its comments and likes | high, not executed | AdminEditor.SaveUnchangedWipesComments | AdminEditor.SaveUnchangedIsIdentity |
| views/SettingsView.tsx:252-257 | the text area's value is the parsed skills joined again, and each change is parsed at once | skills ["React"], press Enter at the end: "React\n" parses to ["React"], and the area shows "React" again | keep the typed text while editing and read the skills from it | high, not executed | SettingsView.EnterAtEndIsLost | SettingsView.TypeNewSkillLine |
| views/FriendLinksView.tsx:24-31 | groups are collected on the object literal `{}`, whose lookups also see inherited properties | a friend link with category "constructor" (or "toString", "__proto__", …): `groups[cat]` is the inherited value, truthy, so no array is made and `push` throws while the page renders | group on an object without a prototype (`Object.create(null)`) or a `Map` | high, not executed | FriendLinks.ConstructorCategoryCrashes | FriendLinks.GroupsAt |
