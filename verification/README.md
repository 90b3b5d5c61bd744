# second-brain: a Dafny model of the card grid, the formatter and the forms

This project models the client-side logic of the second-brain bookmarking app.
Every operation is a pure function or an effect-free method over immutable
values. Most operations are tied by lemmas to an independent description of
what they should do: the `Deal` stride reference for the grid, the
piece and span reference for the markup, the `EmailPattern` existential for
the email test and `KeepFirst` for the tag set. The compute-only functions
carry no contract of their own; the lemmas named in their rows describe them.
The contracts of the form guards and field edits state their case split
directly.
The model covers:

- **Card grid.** The dashboard's `distributeCards` filters the saved cards by
  sidebar category and deals the survivors round-robin into the responsive
  columns. The share page deals every shared card without filtering.
  `useResponsiveColumns` maps the window width to one to four columns.
- **Formatter.** The description formatter (`formatDescription` on cards and
  on the share page, `renderFormattedText` in the editor preview) splits a
  text into lines. On each line it replaces `**X**` and then `__X__` with
  HTML spans. A line starting with "• " becomes a list item. The lines are
  joined with `<br/>`.
- **Links.** `createYouTubeEmbedLink` rewrites a YouTube watch URL to its embed
  URL. The tweet anchor rewrites `x.com` to `twitter.com`. The share id is
  taken from the page path.
- **Create-content dialog.** The formatting buttons (`applyFormatting`),
  `addTag` and `removeTag`, the auto-fill merge of fetched metadata, and the
  submit checks.
- **Sign-up and log-in.** The sign-up form's `validateForm`, including the
  email pattern `\S+@\S+\.\S+`, and the log-in guard with its error message.

Modules:

- `Options` holds the option type.
- `JsStrings` holds the JavaScript string built-ins the app relies on:
  `trim` with the ECMAScript white-space set, `split`/`join`, and
  `replace` with a string pattern.
- `Sequences` holds subsequences, flattening, `filter(x => x !== t)`, and the
  insertion-ordered `new Set(...)`.
- `Content` holds the card record.
- `Layout` holds the breakpoints and the round-robin deal.
- `Dashboard` and `ShareView` are the two pages.
- `Links`, `Markup` and `Editor` cover the link rewrites, the formatter and
  the create-content dialog.
- `Signup` and `Login` are the two forms.

Strings are `seq<char>`. A Dafny `char` is a Unicode scalar value, whereas a
JavaScript string is a sequence of UTF-16 code units; the two agree only for
text inside the Basic Multilingual Plane, where every character is one unit.
Lengths, indices and selection offsets in the model count characters.

Two facts about the program shape the model:

- `distributeCards` filters by category only. `SearchBar` only reports the
  typed term through `onSearch` (src/components/ui/SearchBar.tsx), and no
  grid function reads it.
- The formatted text is inserted as HTML through `dangerouslySetInnerHTML`
  with no escaping (src/components/ui/Card.tsx:167), so the formatter's output
  is the unescaped string.

## Model

| member | source | states |
|---|---|---|
| Layout.ColumnsForWidth | src/pages/Dashboard.tsx:15-21 | Widths below 640 give 1 column, widths from 640 below 1024 give 2, widths from 1024 below 1536 give 3, and widths of 1536 and above give 4. |
| Layout.ColumnsMonotone | src/pages/ShareViewPage.tsx:26-32 | A wider window never gets fewer columns. |
| Layout.DistributeCards | src/pages/ShareViewPage.tsx:65-72 | The forEach loop that pushes card `i` into column `i % columns` builds exactly the reference deal, in which column `k` holds the cards at positions `k, k + c, k + 2c, …`. |
| Layout.StrideIndex | src/pages/Dashboard.tsx:95-99 | Row `j` of column `k` is the card at position `k + j*c`, and a column ends only once its next position would leave the list. |
| Layout.StridePlacement | src/pages/Dashboard.tsx:96-98 | Position `k + q*c` is row `q` of column `k`. |
| Layout.DealPlacement | src/pages/Dashboard.tsx:95-99 | There are exactly `c` columns, and card `i` sits in column `i % c` at row `i / c`. |
| Layout.DealSnoc | src/pages/Dashboard.tsx:95-99 | Pushing the next card changes only column `n % c`, which gains that card at its end. |
| Layout.DealEmpty | src/pages/Dashboard.tsx:93 | The base case of the deal: an empty list gives `c` empty columns. |
| Layout.DealPartition | src/pages/Dashboard.tsx:93-101 | The column sizes add up to the list length, and the columns together hold the list's cards with their multiplicities. |
| Layout.DealBalanced | src/pages/ShareViewPage.tsx:67-70 | Column sizes never grow from left to right and differ by at most one. |
| Layout.DealKeepsOrder | src/pages/ShareViewPage.tsx:67-70 | Every column is a subsequence of the input, so cards keep their relative order. |
| Layout.DealIsRoundRobin | src/pages/Dashboard.tsx:93-101 | The deal satisfies every property above: `c` columns, placement, sizes, contents, balance and order. |
| Layout.StrideSnoc | src/pages/Dashboard.tsx:96-98 | Appending a card extends only the column its position falls in. |
| Layout.StrideSubsequence | src/pages/Dashboard.tsx:95-99 | A column is a subsequence of the list it was dealt from. |
| Dashboard.FilterByCategory | src/pages/Dashboard.tsx:89-91 | The kept cards are a subsequence of the input, and each card keeps its multiplicity exactly when it is in the category; other cards are dropped. |
| Dashboard.InCategory | src/pages/Dashboard.tsx:90 | The filter's test: category "all", or a card whose type is the category. FilterByCategory states the filter through it; FilterAllKeepsEverything and FilterTagsKeepsNothing state its two edge cases. |
| Dashboard.FilterAllKeepsEverything | src/pages/Dashboard.tsx:90 | Category "all" keeps the list unchanged. |
| Dashboard.FilterTagsKeepsNothing | src/components/ui/Card.tsx:8 | Category "tags" keeps nothing, because no card type is called "tags". |
| Dashboard.FilterIdempotent | src/pages/Dashboard.tsx:89-91 | Filtering twice by the same category is filtering once. |
| Dashboard.DashboardColumns | src/pages/Dashboard.tsx:88-102 | The dashboard grid is the round-robin deal of the filtered cards. Every column is a subsequence of the unfiltered input. Each category card appears as often as in the input, and other cards do not appear. |
| Dashboard.DashboardContents | src/pages/Dashboard.tsx:88-102 | The columns together hold exactly the cards of the category, each as often as in the input. |
| Dashboard.TagsGridEmpty | src/pages/Dashboard.tsx:93-99 | With category "tags" every one of the columns is empty. |
| Dashboard.Capitalize | src/pages/Dashboard.tsx:132 | Capitalising keeps the length, upper-cases the first character and leaves the rest unchanged. |
| Dashboard.CapitalizeIdempotent | src/pages/Dashboard.tsx:132 | Capitalising twice is capitalising once, and a lower-case first letter always changes. |
| Dashboard.HeaderOfCategory | src/pages/Dashboard.tsx:132 | The heading is the category with its first letter raised and every other character kept, followed by " Content", for a category starting with a lower-case ASCII letter, as every sidebar value does. |
| Dashboard.AllHeader | src/pages/Dashboard.tsx:132 | Category "all" is headed "All Content". |
| Dashboard.HeaderTitle | src/pages/Dashboard.tsx:132 | The page heading. HeaderOfCategory and AllHeader state what it shows. |
| ShareView.ShareId | src/pages/ShareViewPage.tsx:51 | The share id contains no slash. It is a suffix of the path, and it is either the whole path or is preceded by a slash. |
| ShareView.ShareIdAfterLastSlash | src/pages/ShareViewPage.tsx:51 | The id of `prefix/id` is `id`, and it is empty when the path ends in a slash. |
| ShareView.ShareColumns | src/pages/ShareViewPage.tsx:186 | Without data there are no columns. With data, all shared cards are dealt round-robin, unfiltered. |
| JsStrings.SkipWhitespace | src/pages/Signup.tsx:47 | The returned index is the first one at or after the start that does not hold white space. |
| JsStrings.TrimmedEnd | src/pages/Signup.tsx:47 | The returned index is the end of a range once its trailing white space is dropped. |
| JsStrings.Trim | src/components/ui/CreateContentModel.tsx:131 | The result is a slice of the input surrounded only by white space, and it neither starts nor ends with white space. It is empty exactly when the input is all white space. |
| JsStrings.TrimIdempotent | src/components/ui/CreateContentModel.tsx:131 | Trimming twice is trimming once. |
| JsStrings.Split | src/pages/ShareViewPage.tsx:51 | Splitting gives at least one piece, and no piece contains the separator. |
| JsStrings.Join | src/components/ui/Card.tsx:59 | `join` with a separator. JoinSplit and SplitJoin state that it is the inverse of `split`. |
| JsStrings.JoinSplit | src/components/ui/Card.tsx:42-59 | Joining the pieces of a split with the separator gives back the input. |
| JsStrings.SplitJoin | src/components/ui/CreateContentModel.tsx:191-194 | Splitting a join of separator-free pieces gives back the pieces. |
| JsStrings.SplitPrefix | src/components/ui/Card.tsx:43 | A separator-free prefix joins onto the first piece of the split. |
| JsStrings.SplitLast | src/pages/ShareViewPage.tsx:51 | The last piece of a split is the longest separator-free suffix of the input. |
| JsStrings.IndexOfFrom | src/components/ui/Card.tsx:17 | The result is the least position at or after the start where the pattern occurs, or none. |
| JsStrings.ReplaceFirst | src/components/ui/Card.tsx:17 | Only the first occurrence of the pattern is replaced. Without an occurrence the input comes back unchanged. |
| Links.EmbedOfWatchLink | src/components/ui/Card.tsx:16-18 | A watch URL of any id becomes the embed URL of the same id, even when the id repeats the watch prefix. |
| Links.EmbedKeepsOtherLinks | src/pages/ShareViewPage.tsx:74-76 | A link without the watch prefix is used unchanged. |
| Links.YouTubeEmbedLink | src/components/ui/Card.tsx:16-18 | `createYouTubeEmbedLink`. EmbedOfWatchLink states that a watch URL becomes the embed URL of the same id, and EmbedKeepsOtherLinks that any other link is kept. |
| Links.TwitterHref | src/components/ui/Card.tsx:145 | The tweet anchor's href. TwitterHrefOfXLink states that `https://x.com/` + path becomes `https://twitter.com/` + path, even when the path holds another "x.com". |
| Links.CardEmbed | src/components/ui/Card.tsx:123-161 | What the card frames, by type. ShareEmbed states that the share page frames videos and tweets the same way and documents not at all. |
| Links.XHostFirst | src/components/ui/Card.tsx:145 | In `https://x.com/…` the first "x.com" is the host. |
| Links.TwitterHrefOfXLink | src/pages/ShareViewPage.tsx:133 | An `x.com` post link is sent to `twitter.com`, and everything after the host is kept, even another "x.com". |
| Links.ShareEmbed | src/pages/ShareViewPage.tsx:111-137 | The share page frames videos and tweets with the same rewritten links as the card, and frames documents not at all. |
| Markup.CloseAt | src/components/ui/Card.tsx:47 | The lazy group ends at the first closing pair, unless a line terminator comes before it. With no such pair, no group ends. |
| Markup.SubstitutePairs | src/components/ui/Card.tsx:46-53 | The global lazy replace of a doubled delimiter. Its meaning is stated by SubstitutePieces (every well-formed list of pieces goes from its markup to its HTML in one pass) and SubstituteNoPair (delimiter-free text is unchanged). |
| Markup.SubstituteNoPair | src/components/ui/Card.tsx:46-53 | A line with no delimiter passes a substitution unchanged. |
| Markup.SubstitutePrefix | src/components/ui/Card.tsx:46-49 | A delimiter-free stretch that does not end in half a delimiter is copied, and the scan resumes after it. |
| Markup.CloseAtFirst | src/components/ui/Card.tsx:47 | The group closes at the first closing pair after the opening one. |
| Markup.SubstituteMarked | src/components/ui/Card.tsx:46-49 | `**X**` becomes the opening span, then `X`, then the closing span, for a minimal `X` that may be empty. The scan continues after the closing pair. |
| Markup.SubstituteUnclosed | src/components/ui/Card.tsx:46-49 | An opening `**` with no closing pair after it stays as it is. |
| Markup.SubstitutePieces | src/components/ui/Card.tsx:46-53 | One pass replaces exactly the delimited runs, left to right and without overlap, and copies the rest. |
| Markup.Embolden | src/components/ui/Card.tsx:46-49 | The bold pass of a line. EmboldenSpans states that it turns every bold span into its HTML and leaves the underline runs for the next pass. |
| Markup.Underscore | src/components/ui/Card.tsx:50-53 | The underline pass of a line. UnderscoreSpans states that, after the bold pass, it completes the HTML of every span. |
| Markup.ListItem | src/components/ui/Card.tsx:54-56 | The bullet check. BulletLine and FormatSpans state that a line starting with "• " loses those two characters and is wrapped in `<li class="ml-4">`, and PlainLineUnchanged that any other line is kept. |
| Markup.FormatLine | src/components/ui/Card.tsx:44-58 | The per-line callback: bold, then underline, then the bullet check. PlainLineUnchanged, BulletLine and FormatSpans state its output. |
| Markup.FormatDescription | src/components/ui/Card.tsx:39-62 | `formatDescription`. EmptyDescription states that "" gives ""; DescriptionByLines with PreviewMatchesCard states that any other text gives its formatted lines joined by `<br/>`. |
| Markup.RenderFormattedText | src/components/ui/CreateContentModel.tsx:77-98 | `renderFormattedText` of the preview. PreviewMatchesCard states that it equals FormatDescription on every text, and DescriptionByLines gives its output line by line. |
| Markup.FormatLines | src/components/ui/Card.tsx:44-58 | There is one formatted line per input line, in order. |
| Markup.EmptyDescription | src/components/ui/Card.tsx:40 | The empty description renders as the empty string, both through the guard and through split/join. |
| Markup.PreviewMatchesCard | src/components/ui/CreateContentModel.tsx:77-98 | The editor preview renders every text exactly as the card does. |
| Markup.DescriptionByLines | src/pages/ShareViewPage.tsx:81-98 | The output is the formatted lines in order, joined by `<br/>`. |
| Markup.PlainLineUnchanged | src/components/ui/Card.tsx:44-58 | A line with neither delimiter and no leading bullet is shown as it is. |
| Markup.BulletLine | src/components/ui/Card.tsx:54-56 | A bullet line with no `**` and no `__` loses exactly its two bullet characters and becomes a list item; lines with runs are covered by FormatSpans. |
| Markup.PassesLineUp | src/components/ui/Card.tsx:46-53 | The bold pass reads the markup as its pieces and leaves exactly what the underline pass reads, and the underline pass produces the intended HTML. |
| Markup.PiecesOfSpansOk | src/components/ui/Card.tsx:46-53 | Well-formed spans are read unambiguously by both passes. |
| Markup.EmboldenSpans | src/components/ui/Card.tsx:46-49 | The bold pass turns every bold span into its HTML and keeps the underline runs. |
| Markup.UnderscoreSpans | src/components/ui/Card.tsx:50-53 | The underline pass, run after bold, completes the HTML. |
| Markup.FormatSpans | src/components/ui/Card.tsx:44-58 | A line written as bold, underlined and plain spans renders as those spans' HTML, as a list item when it starts with the bullet. |
| Editor.ApplyFormatting | src/components/ui/CreateContentModel.tsx:168-218 | `applyFormatting` with the run test corrected (see Findings): a selection of two or three marker characters is wrapped, not deleted. An empty selection changes nothing. Otherwise the text before and after the selection is kept, the selection start stays, and the new selection covers exactly the replacement. |
| Editor.Splice | src/components/ui/CreateContentModel.tsx:195-205 | The new description and selection: the text before the selection is kept, the replacement follows and is selected, and the text after the selection comes last. WrapThenUnwrap and UndoBySecondEdit build on it. |
| Editor.IsWrapped | src/components/ui/CreateContentModel.tsx:198 | The corrected run test: the prefix and the suffix are both there and do not overlap. AsWrittenDiffersOnlyOnShortRuns states how it differs from the test as written. |
| Editor.ToggleBullet | src/components/ui/CreateContentModel.tsx:193 | One line of a bullet selection. ToggleBulletTwice states that a second toggle gives the line back unless it starts with two bullets. |
| Editor.Reformat | src/components/ui/CreateContentModel.tsx:190-206 | The replacement of the selection. WrapReformat and UnwrapReformat state that wrapping and unwrapping undo each other, and BulletTwice the same for bullets. |
| Editor.UndoBySecondEdit | src/components/ui/CreateContentModel.tsx:195-216 | A second press on the returned selection undoes an edit whose replacement is non-empty and toggles back. |
| Editor.WrapReformat | src/components/ui/CreateContentModel.tsx:203-205 | Wrapping a selection that is not a run gives a run whose inside is the selection. |
| Editor.UnwrapReformat | src/components/ui/CreateContentModel.tsx:199-202 | Unwrapping a run leaves its inside, and wrapping that inside gives the run back. |
| Editor.WrapInserts | src/components/ui/CreateContentModel.tsx:204-205 | Bold or underline on a selection that is not a run puts the prefix before it and the suffix after it. |
| Editor.WrapThenUnwrap | src/components/ui/CreateContentModel.tsx:198-216 | A second press after wrapping restores the text and the selection. |
| Editor.UnwrapRemoves | src/components/ui/CreateContentModel.tsx:199-202 | Bold or underline on a whole run removes its two markers. |
| Editor.UnwrapThenWrap | src/components/ui/CreateContentModel.tsx:198-216 | A second press after unwrapping restores the run, unless its inside was empty or itself a run. |
| Editor.ToggleBulletTwice | src/components/ui/CreateContentModel.tsx:193 | Toggling a line twice gives it back unless it starts with two bullets. |
| Editor.BulletTwice | src/components/ui/CreateContentModel.tsx:190-196 | Pressing bullet twice restores the text and selection when no line starts with two bullets and the first press leaves a selection. |
| Editor.ApplyFormattingAsWritten | src/components/ui/CreateContentModel.tsx:198-202 | This is the edit as written, with the same frame as the corrected one: the text outside the selection is kept and the selection start stays. |
| Editor.ReformatAsWritten | src/components/ui/CreateContentModel.tsx:190-206 | The replacement as the code writes it. AsWrittenDiffersOnlyOnShortRuns and ShortRunLost state where and how it differs from the corrected Reformat. |
| Editor.SliceInner | src/components/ui/CreateContentModel.tsx:199-200 | `slice(2, -2)`, which is empty below four characters. SliceInnerOfRun states that on a whole run it is the inside: the markers put back around it give the run, and it equals the corrected Reformat. |
| Editor.SliceInnerOfRun | src/components/ui/CreateContentModel.tsx:198-200 | On a run of at least four characters, `slice(2, -2)` gives the inside, which the markers wrap back into the run. |
| Editor.AsWrittenDiffersOnlyOnShortRuns | src/components/ui/CreateContentModel.tsx:198-200 | The written unwrap test differs from the corrected one only on selections of two or three marker characters, which it deletes. |
| Editor.ShortRunLost | src/components/ui/CreateContentModel.tsx:198-202 | Bold on "***" or on "**" deletes the selection; the corrected test wraps "***" into "*******". |
| Editor.AddTag | src/components/ui/CreateContentModel.tsx:130-138 | The tag list changes exactly when the trimmed input is non-empty and new. In that case the trimmed input is appended and the input cleared; otherwise nothing changes. |
| Editor.AddTagKeepsDistinct | src/components/ui/CreateContentModel.tsx:131 | Adding a tag never creates a duplicate. |
| Editor.AddTagTwice | src/components/ui/CreateContentModel.tsx:135 | A second add does nothing, because the input was cleared. |
| Editor.RemoveTag | src/components/ui/CreateContentModel.tsx:140-145 | Every copy of the tag goes, the other tags keep their order and multiplicity, and nothing else in the form changes. |
| Editor.RemoveTagIdempotent | src/components/ui/CreateContentModel.tsx:143 | Removing a tag twice is removing it once. |
| Editor.RemoveAbsentTag | src/components/ui/CreateContentModel.tsx:143 | Removing a tag that is not there changes nothing. |
| Editor.RemoveTagKeepsDistinct | src/components/ui/CreateContentModel.tsx:143 | Removing keeps a duplicate-free list duplicate-free. |
| Editor.RemoveUndoesAdd | src/components/ui/CreateContentModel.tsx:130-145 | Removing the tag just added gives back the earlier tag list. |
| Editor.MergeMetadata | src/components/ui/CreateContentModel.tsx:63-68 | Only the title, description and tags change. A non-empty fetched title or description replaces the current one. The merged tags are duplicate-free and are exactly the current and fetched tags. |
| Editor.MergeTagsFirstOccurrence | src/components/ui/CreateContentModel.tsx:67 | The merged tags are the first occurrences of the current tags followed by the fetched ones. |
| Editor.MergeKeepsCurrentTags | src/components/ui/CreateContentModel.tsx:67 | Distinct current tags stay first and in order; only the new fetched tags follow, in first-occurrence order. |
| Editor.MergeTwice | src/components/ui/CreateContentModel.tsx:63-68 | Merging the same metadata again changes nothing. |
| Editor.AutoFill | src/components/ui/CreateContentModel.tsx:46-75 | With an empty link only the error "Please enter a URL first" is set. A failed request sets the fetch error. A response is merged with no error. |
| Editor.AutoFillTwice | src/components/ui/CreateContentModel.tsx:46-68 | A second auto-fill with the same response changes nothing and leaves no error. |
| Editor.FreshFormBlocked | src/components/ui/CreateContentModel.tsx:20-27 | The dialog opens with an empty link and title, so auto-fill asks for a URL and submitting asks for a title. |
| Editor.SubmitError | src/components/ui/CreateContentModel.tsx:100-112 | A blank title gives "Please enter a title". Otherwise a blank link gives "Please enter a valid link". Otherwise the content is submitted. |
| Editor.BlankLinkAutoFillsButDoesNotSubmit | src/components/ui/CreateContentModel.tsx:47 | A link of blanks passes the auto-fill check, which does not trim, but fails the submit check, which does. |
| Sequences.RemoveAll | src/components/ui/CreateContentModel.tsx:143 | The filter drops every copy of the element and keeps the rest in order and with their multiplicities. An absent element changes nothing. |
| Sequences.RemoveAllNoDuplicates | src/components/ui/CreateContentModel.tsx:143 | The filter keeps a duplicate-free list duplicate-free. |
| Sequences.SetAddAllKeepsFirst | src/components/ui/CreateContentModel.tsx:67 | Adding to an insertion-ordered set appends the first occurrences of the elements not yet present. |
| Sequences.SetOfSequence | src/components/ui/CreateContentModel.tsx:67 | `[...new Set(xs)]` is `xs` with later duplicates dropped. |
| Sequences.SetAddAllDistinct | src/components/ui/CreateContentModel.tsx:67 | The set stays duplicate-free and holds exactly the old members and the added elements. |
| Sequences.SetOfDistinct | src/components/ui/CreateContentModel.tsx:67 | Adding distinct new elements appends them unchanged. |
| Sequences.SetAddAllAppend | src/components/ui/CreateContentModel.tsx:67 | Adding `a + b` is adding `a`, then `b`. |
| Sequences.SetAddAllExtends | src/components/ui/CreateContentModel.tsx:67 | Adding to an insertion-ordered set keeps what it held, in its order, at the front. |
| Sequences.SetAddAll | src/components/ui/CreateContentModel.tsx:67 | Adding elements to an insertion-ordered set, `new Set([...])`. SetOfSequence and SetAddAllKeepsFirst state that it keeps the first occurrence of each element, in order. |
| Signup.MatchAtIsMatch | src/pages/Signup.tsx:52 | A shortest match is a match of `\S+@\S+\.\S+`. |
| Signup.MatchIsMatchAt | src/pages/Signup.tsx:52 | Every match of the pattern contains a shortest match around the same `@` and `.`. |
| Signup.PatternIffMatchAt | src/pages/Signup.tsx:52 | The unanchored pattern matches exactly when some shortest match exists. |
| Signup.NoMatchEndingAt | src/pages/Signup.tsx:52 | When the search does not stop at a character, no match ends there. |
| Signup.Scan | src/pages/Signup.tsx:52 | From any valid search state, the left-to-right search finds a match exactly when one exists. |
| Signup.EmailMatches | src/pages/Signup.tsx:52 | The email test succeeds exactly when some part of the address matches `\S+@\S+\.\S+`. |
| Signup.EmailExamples | src/pages/Signup.tsx:52 | "a@b.c" matches. "a@.c" and "a@b." do not. "my name@x.io" matches, because the pattern is not anchored. |
| Signup.UsernameError | src/pages/Signup.tsx:47-49 | A blank username is reported as required, and only a blank one. |
| Signup.EmailError | src/pages/Signup.tsx:50-54 | A blank email is reported as required. Otherwise a non-matching email is reported as invalid. At most one email error is set. |
| Signup.PasswordError | src/pages/Signup.tsx:55-59 | An empty password is reported as required, and a password of one to five characters as too short; the password is not trimmed. |
| Signup.ConfirmError | src/pages/Signup.tsx:60-62 | Any difference between password and confirmation is reported. |
| Signup.ValidateForm | src/pages/Signup.tsx:45-64 | All four checks run. The form is valid exactly when the error map is empty: username and email non-blank, the email matching, a password of at least six characters, and a confirmation that repeats it. |
| Signup.SixSpacesPass | src/pages/Signup.tsx:55-59 | A password of six spaces passes. |
| Signup.BlankUsernameRejected | src/pages/Signup.tsx:47-49 | A blank username makes the form invalid. |
| Signup.MismatchReportedWithMissingPassword | src/pages/Signup.tsx:55-62 | The mismatch is reported even when the password is missing. |
| Login.HandleLogin | src/pages/Login.tsx:31-38 | The request goes out exactly when both fields are non-empty, without trimming. A blocked attempt sets "Please fill in all fields". A sent one clears the message and starts loading. The credentials never change. |
| Login.InitialBlocked | src/pages/Login.tsx:10-15 | The page opens with both fields empty, so an immediate attempt is blocked with "Please fill in all fields". |
| Login.EditUsername | src/pages/Login.tsx:85-88 | Typing a username replaces it and clears the message; the password and the loading flag stay. |
| Login.EditPassword | src/pages/Login.tsx:103-106 | Typing a password replaces it and clears the message; the username and the loading flag stay. |
| Login.BlockedThenFixed | src/pages/Login.tsx:31-38 | After a blocked attempt, the next keystroke clears the message, and the retry goes out once both fields are filled. |
| Login.BlankCredentialsPass | src/pages/Login.tsx:32 | Credentials of blanks pass the log-in guard, while sign-up rejects the same username. |

## Left out

- Requests and navigation are left out. This covers the axios and fetch calls, `sessionStorage`, `navigate`, clipboard writes and the Twitter widget script; they are I/O against a backend this model cannot see. The metadata response of the auto-fill is a parameter (`None` for a failed request), and so is the shared data of the share page.
- React state, effects and the resize listener are left out. Only the width-to-columns map is modelled; the initial 3 columns shown before the first measurement are not.
- The share page's effect race is left out. Its mock-data effect overwrites the fetched data; this is a matter of effect ordering, not logic.
- `applyFormatting` finds the textarea through the DOM. The model takes the description and the selection `start <= end` as arguments. The `selectionStart <= selectionEnd` guarantee of the browser is the precondition.
- The search bar is left out. It only forwards the term, and no grid function uses it.
- The AI content dialog, the share dialog, the sidebar, the buttons, the card modal and the router are left out. They hold presentation, remote generation, clipboard concatenation and routing, with no logic beyond setters.
- Dashboard.Capitalize: `toUpperCase` is modelled for the ASCII letters only. Other characters are kept as they are, because Unicode case mapping is outside the model.
- JsStrings.Trim: JavaScript strings are UTF-16 code units; the model treats each `char` as one unit, which agrees for text in the Basic Multilingual Plane.
- Signup.PasswordError: the length test counts characters, not UTF-16 units. A password of three characters outside the Basic Multilingual Plane has JavaScript length 6 and is accepted by the code, but is reported as too short here.
- Signup.ValidateForm: its validity condition inherits the character count of the password check, so it rejects the password above where the code accepts it.
- Editor.ApplyFormatting: the selection offsets count characters, where the textarea's `selectionStart`/`selectionEnd` count UTF-16 units; the two agree only inside the Basic Multilingual Plane.
- JsStrings.ReplaceFirst: the replacement is inserted literally. JavaScript expands `$&`, `$$` and the like even with a string pattern; both uses pass replacements without `$`, so nothing the app does is lost.
- Signup.EmailMatches: this is the one pattern used, as an explicit predicate and scanner rather than a general regex engine.
- No HTML escaping is modelled, because the code performs none. The formatter's output is the unescaped string the page injects.
- The sign-up and log-in requests and their server messages ("Signup failed…", "Login failed…") are left out, because they depend on the backend's answer.

## Findings

| source | as written | input that shows it | evidently intended | confidence | as-written member | corrected member |
|---|---|---|---|---|---|---|
| src/components/ui/CreateContentModel.tsx:198-202 | A selection counts as already bold when it starts with "**" and ends with "**". Its inside is then `slice(2, -2)`. For a two- or three-character selection the two markers overlap, and the slice is empty. | Select "***" (or "**") and press Bold: the selection is replaced by the empty string and the characters are lost. | Unwrap only when the prefix and the suffix fit side by side (at least four characters); otherwise wrap, giving "*******", which a second press unwraps again (Editor.WrapThenUnwrap). | not executed; medium | Editor.ShortRunLost | Editor.ApplyFormatting |
