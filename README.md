# Piano-teacher CRM: a Dafny model of its data transforms

The CRM is a Next.js application. An instructor uses it to keep a conversation with each
student: mail is synced in from Gmail and replies are sent with the earlier conversation
quoted below them. This project models the deterministic logic inside that plumbing and
proves what it promises:

- **Mail sync routes.** The quoted-reply cleaner and the MIME walk that picks a body
  (`email_sync.dfy`). The cron route's sender-address extraction and body preference order
  (`cron_sync.dfy`). The MIME tree they share is in `mime.dfy`.
- **Reply chains** (`reply_chain.dfy`). This covers:
  - HTML stripping;
  - the Gmail-style date line;
  - the newest-first selection of at most `maxMessages` messages;
  - the quoted text and HTML chains.
- **Relative dates** (`date_utils.dfy`). The label the conversation list shows for a
  message date.
- **Components.** Each component's handlers are whole-value transitions on the state:
  - the dashboard figures (`dashboard.dfy`);
  - the tag editor and flag lookup of the edit form (`edit_student.dfy`);
  - the add form (`add_student.dfy`);
  - the page's pane dragging, search and list handlers (`page.dfy`);
  - the co-pilot greeting (`copilot.dfy`).

Shared pieces:
- `text.dfy`: the JavaScript string operations the code uses (`trim`, `split`/`join`, `startsWith`,
  `includes`, `toLowerCase`, `String(n)`, `padStart`, and `replace` with a literal or the
  tag pattern `/<[^>]*>/g`).
- `seqs.dfy`: `filter` and `slice`.
- `countries.dfy`: `find` over a country table.
- `crm_types.dfy`: the message and student records.
- `wrappers.dfy`: `Option`.

Form of the model:
- Loops that the source writes as loops are methods with loop invariants. Each is proved equal
  to a specification function, and the properties are proved about that function. These are:
  - `EmailSync.CleanReplyBody` and `EmailSync.ExtractPart`;
  - `ReplyChain.TextBlocks` and `ReplyChain.QuoteBlocks`, the loops of the two chain
    generators.
  The methods that call them, `EmailSync.ExtractBody`, `CronSync.ExtractBody` and the two
  generators, have no loop of their own.
- The one piece of mutable state the page keeps, the divider being dragged, is the class
  `Page.DragRef`.
- Everything else is functions over values, as in the source.

Foreign calls are parameters of the model:
- Base64 decoding is `decode`.
- The reply parser is `parse`.
- The local-time breakdown of a timestamp is `local`.
- The clock is `now`.

## Model

| member | source | states |
|---|---|---|
| EmailSync.KeptLines | app/api/email/sync/route.ts:12-39 | the kept lines are a prefix of the input lines, no kept line is a stop line, and the line after them, if any, is one |
| EmailSync.CleanReplyBody | app/api/email/sync/route.ts:8-43 | the loop, with its four `break` rules, returns exactly the kept lines joined by newlines and trimmed once as a whole |
| EmailSync.KeptLinesUpTo | app/api/email/sync/route.ts:12-39 | the kept lines end exactly at the first line that is a stop line |
| EmailSync.CleanedStopsAtFirstMarker | app/api/email/sync/route.ts:17-35 | for lines joined by newlines, the first stop line and everything after it are dropped, and the rest is trimmed |
| EmailSync.CleanedNoMarker | app/api/email/sync/route.ts:38-42 | a text with no stop line is only trimmed: kept lines are pushed untrimmed |
| EmailSync.CleanedHasNoStopLines | app/api/email/sync/route.ts:12-42 | no line of a cleaned text is a stop line, since the rules look only at the trimmed line |
| EmailSync.CleanedFixedPoint | app/api/email/sync/route.ts:8-43 | a trimmed text with no stop line is left unchanged |
| EmailSync.NoStopLinesJoin | app/api/email/sync/route.ts:9-42 | lines without a newline and without a stop line join into a text with no stop line |
| EmailSync.CleanedIdempotent | app/api/email/sync/route.ts:8-43 | cleaning twice gives the same as cleaning once |
| EmailSync.NoStopLinesTrimStart | app/api/email/sync/route.ts:13 | trimming the front of a text whose lines pass the scan keeps them passing |
| EmailSync.NoStopLinesTrimEnd | app/api/email/sync/route.ts:13 | trimming the end keeps every line passing the scan |
| EmailSync.ExtractBody | app/api/email/sync/route.ts:46-68 | a missing payload gives ""; a present one gives the part's body as the specification function defines it |
| EmailSync.ExtractPart | app/api/email/sync/route.ts:48-67 | the loop over the parts, with its two `break`s and the recursive call, computes the body: own data first, else the scan of the parts, then cleaned |
| EmailSync.FirstHitWins | app/api/email/sync/route.ts:53-63 | without own data, the body is the cleaned text of the first text/plain part with data or the first multipart part with a non-empty body |
| EmailSync.SkipMisses | app/api/email/sync/route.ts:52-64 | parts that are neither a plain part with data nor a multipart part with a body are passed over |
| EmailSync.BodyComesFromParts | app/api/email/sync/route.ts:52-67 | without own data, the scan's text cleans to "" or to the cleaned decoding of some data field below the part |
| EmailSync.NoHitNoBody | app/api/email/sync/route.ts:53-65 | without own data and without such a part, the body is "" |
| EmailSync.BodyComesFromData | app/api/email/sync/route.ts:46-68 | a non-empty body is the cleaned decoding of some data field in the tree; a nested body cleaned again at the top is unchanged |
| EmailSync.StoredBody | app/api/email/sync/route.ts:121 | the stored text is never empty: an empty body is replaced by the placeholder, any other is kept |
| CronSync.MatchFrom | app/api/cron/sync/route.ts:13 | the search finds the leftmost `<` that starts a match and, for it, the rightmost `>` on the same line at least two places on; None exactly when no match exists |
| CronSync.ExtractEmailAddress | app/api/cron/sync/route.ts:12-17 | with a regex match, the result is the group between the brackets; with none, the header itself when it holds `@`, otherwise nothing; a result is never empty |
| CronSync.RegexMatchUnique | app/api/cron/sync/route.ts:13 | the leftmost-then-greedy match is unique |
| CronSync.AddressBetweenFirstOpenLastClose | app/api/cron/sync/route.ts:13-14 | on one line, the address is the text between the first `<` and the last `>` |
| CronSync.EmptyBracketsFallBack | app/api/cron/sync/route.ts:14-15 | "a@b <>" has no match (`.+` needs a character) and is returned whole |
| CronSync.FromHeader | app/api/cron/sync/route.ts:100 | the value of the first header named From, or "" when there is none |
| CronSync.SenderAddress | app/api/cron/sync/route.ts:100-103 | a message without a From header is skipped; otherwise the sender is the address extracted from the first From value; a sender is never empty |
| CronSync.FindType | app/api/cron/sync/route.ts:25 | `find` by MIME type returns the first part of that type, or none when no part has it |
| CronSync.FirstNonEmpty | app/api/cron/sync/route.ts:30-33 | the first non-empty candidate; "" exactly when all are empty |
| CronSync.FirstNonEmptySnoc | app/api/cron/sync/route.ts:30-39 | a further fallback is consulted only when every earlier one gave "" |
| CronSync.ParsedOrRaw | app/api/cron/sync/route.ts:44-46 | the parser's result, or the unparsed text when the parser returns "" |
| CronSync.ExtractBody | app/api/cron/sync/route.ts:20-47 | a missing payload gives ""; otherwise the body follows the order plain part, own body, HTML part with tags replaced by spaces and trimmed, and then the parser fallback |
| CronSync.HtmlCandidateHasNoTag | app/api/cron/sync/route.ts:37 | the HTML fallback leaves no tag behind |
| ReplyChain.StripHtmlIsClean | lib/reply-chain.ts:48-49 | the stripped text has no whitespace at either end and never three newlines in a row |
| ReplyChain.BrAtIff | lib/reply-chain.ts:36 | the `<br>` matcher reports a match of length n exactly when the first n characters are `<br`, in any case, then whitespace, an optional `/`, then `>` |
| ReplyChain.BreaksSplit | lib/reply-chain.ts:36-38 | the three line-break replacements split in front of any `<`: the text before it and the text from it on are rewritten each on its own |
| ReplyChain.BreakTagToNewline | lib/reply-chain.ts:36-38 | wherever it stands, `<br>`, `<br/>`, `<br />` in any case, `</p>` or `</div>` becomes one newline, and the text before and after it is rewritten as if it stood alone |
| ReplyChain.BreakTagStripsAsNewline | lib/reply-chain.ts:34-50 | such a tag strips exactly like a newline would, when the text before it holds no `<` (otherwise `<br` + newline + `>` would itself be a tag); the text after it is unrestricted |
| ReplyChain.BreakTagsInterchangeable | lib/reply-chain.ts:34-50 | any two such tags strip alike in any surroundings |
| ReplyChain.EscapedTagSurvives | lib/reply-chain.ts:40-46 | tags are removed before entities are decoded, so `&lt;a&gt;` strips to the text `<a>` |
| ReplyChain.EscapedEntityDecodedTwice | lib/reply-chain.ts:43-44 | `&amp;lt;` decodes to `<`, because the replacements run one after another |
| ReplyChain.DecodeNbsp | lib/reply-chain.ts:42 | `&nbsp;` decodes to a space |
| ReplyChain.DecodeAmp | lib/reply-chain.ts:43 | `&amp;` followed by text that holds no `&` and does not start with `l`, `g` or `q` decodes to `&` and that text unchanged |
| ReplyChain.DecodeQuot | lib/reply-chain.ts:46 | `&quot;` decodes to `"` |
| ReplyChain.StripHtmlPlainText | lib/reply-chain.ts:34-50 | text without `<`, `&` or three newlines in a row is only trimmed |
| ReplyChain.CollapseNoTripleIdentity | lib/reply-chain.ts:48 | a text without three newlines in a row is not changed by the collapse |
| ReplyChain.DecodeLt | lib/reply-chain.ts:44 | `&lt;` decodes to `<` |
| ReplyChain.DecodeGt | lib/reply-chain.ts:45 | `&gt;` decodes to `>` |
| ReplyChain.CollapseNoTriple | lib/reply-chain.ts:48 | after collapsing, no run of three newlines is left |
| ReplyChain.Hour12 | lib/reply-chain.ts:26 | the 12-hour value is in 1..12 and agrees with the hour modulo 12, so 0 and 12 print as 12 |
| ReplyChain.Meridiem | lib/reply-chain.ts:25 | the marker is "AM" exactly when the hour is below 12 |
| ReplyChain.ClockRoundTrip | lib/reply-chain.ts:23-28 | the printed time of day, with its two-digit minutes, reads back as the hour and minutes, so no two times print alike |
| ReplyChain.InsertNewest | lib/reply-chain.ts:80 | inserting into a newest-first list keeps it newest first and adds exactly the one message |
| ReplyChain.SortNewestFirst | lib/reply-chain.ts:79-80 | the sorted copy is newest first and a permutation of the input |
| ReplyChain.SortIsStable | lib/reply-chain.ts:80 | messages with equal timestamps keep their input order |
| ReplyChain.RecentSelection | lib/reply-chain.ts:79-85 | the selection is newest first and drawn from the input; for n >= 0 its length is min(n, number of messages); it is empty exactly when `slice(0, n)` selects none, negative n included |
| ReplyChain.RecentAreNewest | lib/reply-chain.ts:79-81 | every message left out is no newer than every message selected |
| ReplyChain.QuotePrefix | lib/reply-chain.ts:147 | every line, and only it, gets `> ` in front, one output line per input line |
| ReplyChain.QuoteRoundTrip | lib/reply-chain.ts:147 | every line of the quoted text starts with `> `, and dropping that prefix from each line gives back the content |
| ReplyChain.GenerateReplyChainText | lib/reply-chain.ts:117-152 | the method returns "" when nothing is selected and otherwise the header followed by one entry per selected message, newest first |
| ReplyChain.TextBlocks | lib/reply-chain.ts:139-149 | the `+=` loop appends, for each message in order, the heading with the sender (instructor defaults exactly for instructor messages), the quoted lines and a newline |
| ReplyChain.ReplyChainTextEmpty | lib/reply-chain.ts:133-137 | the text chain is "" exactly when no message is selected, and otherwise starts with "\n\n---\n" |
| ReplyChain.ParagraphRoundTrip | lib/reply-chain.ts:103 | every line other than the literal text `&nbsp;`, the empty one written as `&nbsp;`, becomes a non-empty paragraph from which the line reads back; a line that is `&nbsp;` itself reads back as the empty line |
| ReplyChain.GenerateReplyChainHtml | lib/reply-chain.ts:66-112 | the method returns "" when nothing is selected and otherwise the wrapped quote blocks of the selected messages |
| ReplyChain.QuoteBlocks | lib/reply-chain.ts:88-106 | the `+=` loop appends one quote block per message in order, each holding the date line, the sender name, the address between `&lt;` and `&gt;`, and one paragraph per line of the stripped content |
| ReplyChain.ChainHtmlWrap | lib/reply-chain.ts:108-111 | the wrapped chain is never empty and starts with the outer block |
| ReplyChain.ReplyChainHtmlEmpty | lib/reply-chain.ts:83-85 | the HTML chain is "" exactly when no message is selected, and otherwise starts with the outer block |
| DateUtils.Classify | lib/date-utils.ts:13-20 | "Today" exactly for d <= 0 and "Yesterday" exactly for d = 1; 2..6 days, weeks 1..4 below 30, months 1..12 below 365, then years, each with its range |
| DateUtils.RenderRoundTrip | lib/date-utils.ts:13-20 | every label reads back as itself, so different labels never print alike |
| DateUtils.ClassifyMonotone | lib/date-utils.ts:13-20 | an older date never gets a label standing for a more recent age |
| DateUtils.SpringForwardShowsToday | lib/date-utils.ts:6-10 | as written, the day on which clocks spring forward, seen on the next day, is labelled "Today" (its midnight lies only 23 hours before today's) |
| DateUtils.DiffInDaysIsCalendarDays | lib/date-utils.ts:9-10 | the rounded difference gives the number of calendar days whatever daylight-saving shift under half a day lies between |
| DateUtils.SpringForwardShowsYesterday | lib/date-utils.ts:6-16 | with the calendar-day difference, that day is "Yesterday" |
| DateUtils.AgreesWithoutDaylightSaving | lib/date-utils.ts:6-10 | without a daylight-saving change in between, the source's difference and the corrected one agree |
| Dashboard.ComputeStats | components/crm/dashboard-pane.tsx:11-13 | the total is the number of students; leads and active count exactly the students with those statuses, add up to at most the total, and are 0 exactly when no student has the status |
| Dashboard.AllLeads | components/crm/dashboard-pane.tsx:11-12 | the lead count equals the total exactly when every student is a lead |
| Dashboard.NeedsReplyList | components/crm/dashboard-pane.tsx:17-22 | an order-preserving subsequence of the students, each not inactive with a last message from the student, holding every such student, each as many times as the list holds it |
| Dashboard.AnsweredNotListed | components/crm/dashboard-pane.tsx:20-21 | a student whose last message is the instructor's is never listed |
| Dashboard.RecentLeads | components/crm/dashboard-pane.tsx:25-27 | the first min(5, leads) leads, in input order, a subsequence of the students |
| Dashboard.RecentLeadsAgreeWithCount | components/crm/dashboard-pane.tsx:12-27 | the list is empty exactly when the lead count is 0, and complete when there are at most five leads |
| EditStudent.EditFlagsPresent | components/crm/edit-student-modal.tsx:15-31 | every entry of the edit table has a flag |
| EditStudent.UnitedKingdomNotListed | components/crm/edit-student-modal.tsx:15-31 | the edit table has no entry with code "UK" |
| EditStudent.UnlistedGetsGlobe | components/crm/edit-student-modal.tsx:73 | a code the table does not hold gets the globe |
| EditStudent.AddTag | components/crm/edit-student-modal.tsx:49-54 | a non-blank trimmed tag not yet present is appended and the input cleared; otherwise both tags and input stay as they are |
| EditStudent.AddTagKeepsDistinct | components/crm/edit-student-modal.tsx:50-51 | adding never creates a duplicate |
| EditStudent.AddTagIdempotent | components/crm/edit-student-modal.tsx:49-54 | adding twice is adding once |
| EditStudent.RemoveTag | components/crm/edit-student-modal.tsx:56-58 | every occurrence of the tag goes; the others stay in order and as often as they were |
| EditStudent.RemoveUndoesAdd | components/crm/edit-student-modal.tsx:49-58 | removing a tag just added gives back the old tags |
| EditStudent.RemoveKeepsDistinct | components/crm/edit-student-modal.tsx:56-58 | removing keeps the tags free of duplicates |
| EditStudent.FlagFor | components/crm/edit-student-modal.tsx:68-73 | the flag of the table entry with the code, or the globe when no entry has it; never empty |
| EditStudent.HandleSave | components/crm/edit-student-modal.tsx:67-77 | name, email, country and tags pass through unchanged; the flag is looked up |
| Countries.FindCountry | components/crm/edit-student-modal.tsx:68 | `find` returns the first entry with the code, or none exactly when no entry has it |
| Countries.FindDistinct | components/crm/add-student-modal.tsx:104 | with distinct codes, `find` returns the one entry with the code |
| EditStudent.EditCodesDistinct | components/crm/edit-student-modal.tsx:15-31 | no two entries of the edit table share a code |
| AddStudent.AddCodesDistinct | components/crm/add-student-modal.tsx:9-20 | no two entries of the add table share a code |
| AddStudent.HandleSubmit | components/crm/add-student-modal.tsx:36-52 | a record is handed over exactly when name and e-mail are non-empty; its fields come from the form; tags are [notes] or []; the form resets then and is unchanged otherwise |
| AddStudent.SubmitKeepsValid | components/crm/add-student-modal.tsx:31-49 | code and flag of a handed-over record come from one table entry, and the form stays on a table entry |
| AddStudent.SubmitOnce | components/crm/add-student-modal.tsx:38-50 | submitting the reset form hands over nothing |
| AddStudent.SelectCountry | components/crm/add-student-modal.tsx:103-106 | an unknown code leaves the form unchanged; a known one selects only the country |
| AddStudent.SelectOffered | components/crm/add-student-modal.tsx:104-105 | any code of the table selects exactly its own entry |
| AddStudent.SelectKeepsValid | components/crm/add-student-modal.tsx:103-106 | the selection stays an entry of the table |
| AddStudent.UnitedKingdomLosesFlag | components/crm/add-student-modal.tsx:13 | the add form stores the United Kingdom as "UK", which the edit table does not hold, so saving it unchanged gives the globe |
| AddStudent.UnitedKingdomEntry | components/crm/add-student-modal.tsx:13 | the add table's United Kingdom entry has code "UK" and the British flag |
| AddStudent.SharedCodesKeepFlag | components/crm/add-student-modal.tsx:9-20 | every other code of the add form keeps its flag through the edit form |
| Page.DragRef.constructor | app/page.tsx:157 | no divider is being dragged at first |
| Page.DragRef.MouseDown | app/page.tsx:159-163 | pressing a divider makes it the one dragged |
| Page.DragRef.MouseUp | app/page.tsx:180-184 | releasing ends the drag |
| Page.Clamp | app/page.tsx:173-176 | the result is at least lo and, when lo <= hi, at most hi; it is x inside the range and the nearer bound outside it |
| Page.MouseMove | app/page.tsx:165-178 | nothing changes without a drag or a container; dragging a divider sets only its pane, within its bounds, and follows the mouse inside them |
| Page.MouseMoveKeepsRange | app/page.tsx:154-176 | the initial widths are in range, and every move keeps them in range |
| Page.DragSession | app/page.tsx:159-184 | after press, move and release, the widths are in range, the other pane is untouched, and a move after the release changes nothing |
| Page.FilteredStudents | app/page.tsx:186 | the students whose lowercased name contains the lowercased query, in order, each as often as in the list |
| Page.EmptyQueryKeepsAll | app/page.tsx:186 | an empty query keeps every student |
| Page.LowerIdempotent | app/page.tsx:186 | lowercasing a second time changes nothing |
| Page.SearchIgnoresCase | app/page.tsx:186 | the case of the query does not matter |
| Page.SelectStudent | app/page.tsx:188-192 | the student goes on screen; every entry with its id gets status "read"; the others are untouched |
| Page.SelectIdempotent | app/page.tsx:188-192 | selecting again changes nothing more |
| Page.SelectedAwaitsReplyIffStudentSpokeLast | app/page.tsx:191 | a selected student waits for a reply exactly when the student wrote last, even one that was inactive |
| Page.SendMessage | app/page.tsx:194-211 | one instructor message goes after the messages of the selected student, on screen and in every list entry with its id, and sets their last message date to now; no other entry changes |
| Page.SendAnswersConversation | app/page.tsx:194-211 | the conversation grows by exactly one message, keeps its earlier ones, and no longer waits for a reply |
| Page.NewRecord | app/page.tsx:214-230 | fields from the form, status "unread", and as messages one student message with the first tag, or none |
| Page.AddNewStudent | app/page.tsx:231 | the new record goes in front and the list grows by exactly one |
| Page.AddedAwaitsReplyIffNotes | app/page.tsx:218-228 | an added student waits for a reply exactly when it has a tag |
| Page.SubmittedNotesBecomeFirstMessage | app/page.tsx:213-231 | with components/crm/add-student-modal.tsx:44, typed notes become the first message and no notes give no messages |
| Copilot.QuotedNotes | components/crm/copilot-pane.tsx:26 | notes up to 50 characters are quoted whole; longer ones as their first 50 characters and "..." |
| Copilot.NotesContext | components/crm/copilot-pane.tsx:24-27 | "" exactly for blank notes; otherwise the quoted notes between the fixed opening and a closing quote |
| Copilot.TopicOf | components/crm/copilot-pane.tsx:29-38 | "Performance Anxiety" wins over "Parent", which wins over "Exam Prep", else the default, each as an if-and-only-if |
| Copilot.Greeting | components/crm/copilot-pane.tsx:23-39 | the greeting contains the name, starts with the topic's template and ends with the notes context |
| Copilot.NoNotesNoContext | components/crm/copilot-pane.tsx:24 | empty notes add no context |
| Copilot.GreetingAppendsContext | components/crm/copilot-pane.tsx:30-38 | the notes only add a suffix to the greeting without notes |
| Copilot.BlankNotesIgnored | components/crm/copilot-pane.tsx:24-27 | whitespace-only notes leave the greeting as without notes |

## Left out

- I/O is not modelled. That includes Gmail, Supabase, SMTP, OAuth, the AI vendors and the cron route's database lookups. Only the transforms between those calls are modelled.
- Base64 decoding (`Buffer.from`) and `EmailReplyParser` are library code. They are the parameters `decode` and `parse`, with no properties assumed.
- A payload is modelled by the fields the routes test. JavaScript truthiness is folded into the representation: an absent or empty `body.data` is "", and absent `parts` is [].
- `Date` is not modelled. `new Date(...)` and its local-time getters are the parameter `local`. `Date.now()` and `new Date()` are the parameter `now`. The page's several clock reads in one handler are taken as one instant.
- `formatRelativeTime` reads the clock and the time zone. The model takes the two local midnights or the day difference.
- `formatTime` is locale formatting; it is not modelled.
- `formatRelativeTime` on an invalid `Date` is not modelled. There the day difference is NaN, and the model's day difference and midnights are integers.
- `maxMessages` is an integer here. The source takes a `number`: `slice(0, 2.5)` truncates the bound to 2, and `slice(0, NaN)` selects nothing. Fractional and NaN bounds are not modelled.
- Mouse coordinates and the container box are floats in the browser. The model uses integers.
- Strings are sequences of code points, not UTF-16 units. `notes.length` and `slice(0, 50)` count code points here, so the model differs from the browser only for notes with characters outside the Basic Multilingual Plane.
- `toLowerCase` is modelled on ASCII letters only.
- Sort with non-numeric timestamps (NaN) is not modelled. Timestamps are integers, and the comparator is then a proper order. The model is a stable insertion sort: `Array.prototype.sort` is stable, and the result is the same.
- `GenerateReplyChainText` and `GenerateReplyChainHtml` are not single loops here. Each one's `for` loop is a separate method, `TextBlocks` and `QuoteBlocks`. The parent method adds the header and sorts, and so on as the source does.
- React is not modelled: rendering, effects, `handleNotesChange`, `handleKeyDown`, modal opening and closing, and the body cursor styles set on drag. Each handler is a whole-value transition of the state it sets.
- Every other file of the repository is not part of this model. That includes send, AI chat, assets, settings, the compose editor and the configuration.

## Findings

| source | as written | input that shows it | evidently intended | confidence | as-written member | corrected member |
|---|---|---|---|---|---|---|
| lib/date-utils.ts:6-10 | the day difference is `Math.floor` of the gap between two local midnights divided by 24 hours | with the local time zone springing forward overnight, the previous day's midnight lies 23 hours before today's; the floor gives 0 and the label is "Today" | the number of calendar days, so that the previous day is "Yesterday" | not executed | DateUtils.SpringForwardShowsToday | DateUtils.SpringForwardShowsYesterday |
