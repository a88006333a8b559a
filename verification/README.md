# Qrow, verified

Qrow is a desktop SQL client. This project models seven of its components in
Dafny and proves what each promises over every input, every interleaving or
every sequence of calls.

| files | models |
|---|---|
| `Chars`, `Lexer`, `TokenShapes`, `Statements`, `Cursor`, `TokenEquivalence`, `AcceptedText`, `Pieces`, `CaseBlind`, `Recase`, `Keywords`, `Stability`, `Whitespace`, `WhitespaceTwice`, `Mask`, `MarkerGaps`, `Skeletons`, `Respacing`, `WordSpacing`, `Format`, `HiddenTokens` | `src/sql.rs`: the tokenizer for three dialects, statement splitting, each statement on its own, the cursor statement, and the formatter passes with the check that guards them |
| `Authentication`, `SharedSignIn`, `SignIn` | `src/external_auth.rs`: shared browser sign-in, as a transition system of its critical sections and atomic accesses, and as classes whose methods are those sections |
| `ResultCursor` | `src/worker.rs`: preview paging, the batch held back at the preview limit, the drain that exports a whole result, cancellation, errors |
| `LogHistory`, `Retention`, `Calendar` | `src/logs.rs`: log retention with its cached counts, and calendar dates |
| `Titles`, `Consistency`, `Repairs`, `WorkspaceRepair`, `Glob`, `SchemaRules` | `src/model.rs`: repair of a loaded workspace, copy titles, glob patterns, schema rules as text |
| `AtomicFile`, `Saver` | `src/storage.rs`: atomic replacement of a file on a file system that can crash, and the thread that saves workspaces |
| `CatalogCache` | `src/catalog.rs` and `src/catalog/worker.rs`: updates of the schema cache and the refresh that fills it |

`Options` and `Numerals` hold what several of them share. `dafny verify
dfyconfig.toml` checks everything.

Passes over text are specified by functions on sequences, and the loops of the
program are methods proved equal to them. What these functions mean is stated once more
without them, by the shape of the text or the entries before and after: `TokenShapes`,
`AcceptedText`, `Keywords`, `HiddenTokens`, `Retention`, `Repairs` and `SharedSignIn` hold
such statements. Objects that change in place are classes. Text is a sequence of characters: all bytes that the byte loops look
for are ASCII, and no byte of another character is, so ranges of characters
stand for ranges of bytes on character boundaries. Character classes beyond
ASCII are functions without a value, so what is proved holds for every Unicode
table; the only assumption is that no white-space character is alphanumeric. The
word lists `TYPES` and `FUNCTIONS` and the layout engine are arbitrary as well.

## What was found

- White-space normalization replaces a blank by one space. Postgres joins two
  string literals only when a line break stands between them, so in that dialect
  the pass can change what the token check looks at. `Whitespace.NormalizePassesCheck`
  gives the exact condition: the check passes if and only if each such break lies
  in a comment or right after a line comment. Kyuubi and Trino always pass.
  `Whitespace.ContinuedStringFails` is a text that fails.
- Normalizing white space twice is normalizing it once if and only if no two blank
  tokens stand next to each other (`WhitespaceTwice.NormalizeTwice`). They do where a
  white-space character that the tokenizer does not skip, such as a vertical tab or one
  beyond ASCII, is next to another blank: `WhitespaceTwice.VerticalTabFails`.
- In `normalize`, the branch for a tab in front that has no connection although
  connections exist (`src/model.rs:1778-1787`) is never taken; `WorkspaceRepair.Workspace.ActivateTabs`
  asserts so.
- When a run is cancelled before its statement is submitted, the operation of the
  execution before it stays open with its cancellation target, so a later page
  request delivers its rows under the new execution, and a drain exports them without
  the rows before. `ResultCursor.OldRowsUnderNewExecution` is such a run.
  `ResultCursor.Runner.Work` says what is left over every sequence of commands: a drain
  that succeeds spools what the server gave for the last submitted statement, in order,
  without its first rows: as many as the executions since then dropped that were cancelled
  before their submission. So the whole result is in reach, and is spooled, if and only if
  they dropped none.
- After a sign-out returned, a caller can still return a token if and only if it had
  looked at the entry before and its flight has not failed (`Authentication.LateTokenWindow`).
  The entry itself never holds a token again (`Authentication.SignOutIsFinal`).
- A schema or relation that a list names more than once loses what the cache knew
  of it (`CatalogCache.Listed`, `CatalogCache.Merged`). The parsers of the lists
  remove duplicates, so the server cannot cause it.
- The limit of the log text (8 MiB) can be exceeded. What retention keeps is over it if
  and only if what can never go is: the protected groups and the retention line, if there
  is one (`LogHistory.History.Retain`, `LogHistory.OverBudget`). That can have any size
  (`LogHistory.LargeEventStays`). A retention line that is new comes on top
  (`LogHistory.LineExceedsBudget`).

## Model

| member | source | states |
|---|---|---|
| Lexer.TokensFor | src/sql.rs:52-161 | The token loop returns exactly the ranges and kinds of the recursive definition of the dialect's tokens. |
| Lexer.NextToken | src/sql.rs:59-158 | One round of the loop takes the token that the definition gives, with the look-behind for `E'…'` taken from the text before it. |
| Lexer.DollarQuoteEnd | src/sql.rs:164-182 | Where the opening delimiter of a dollar-quoted string ends and where the string ends, or that there is none; an unclosed one takes all the text. |
| Lexer.SkipBlock | src/sql.rs:66-80 | Nested block comments end where every opened comment is closed. |
| Lexer.SkipQuoted | src/sql.rs:94-126 | Doubled quotes, and backslashes where the dialect has them, do not end a quoted token. |
| Lexer.LexCovers | src/sql.rs:47-161 | No token is empty, and the tokens in order are the text. |
| Lexer.TokenPlace | src/sql.rs:52-161 | Each token lies where the tokens before it end, and holds its own text. |
| Lexer.TokensAreSound | src/sql.rs:47-161 | Ranges are not empty, touch each other, and go from the start to the end of the text. |
| TokenShapes.QuotedIsOne | src/sql.rs:87-126 | A quote, a body of other characters, doubled quotes and hidden characters, and the quote again are one token of the kind that the dialect gives it. A backslash hides the next character in Kyuubi in both quotes, in Postgres in single quotes after an E, and nowhere else. |
| TokenShapes.UnclosedTakesAll | src/sql.rs:94-117 | Without a closing quote such a token takes all the text. |
| TokenShapes.UnclosedBackslash | src/sql.rs:94-106 | So does one that ends in a backslash with nothing left to hide. |
| TokenShapes.UnicodeIsOne | src/sql.rs:87-126 | Outside Kyuubi, `U&` before a quote belongs to the token. |
| TokenShapes.EscapeString | src/sql.rs:94-106 | In Postgres a word that ends in E is a token of its own, and the string after it hides characters behind backslashes. |
| TokenShapes.LineCommentIsOne | src/sql.rs:61-65 | Two dashes and all up to the end of the line are one comment. |
| TokenShapes.BlockCommentIsOne | src/sql.rs:66-80 | A block comment with balanced comments in it is one comment. |
| TokenShapes.DollarQuoteIsOne | src/sql.rs:81-86 | Outside Trino a tag between dollars, a body without that delimiter and the delimiter again are one string. |
| TokenShapes.UnclosedDollarTakesAll | src/sql.rs:164-182 | Without the closing delimiter it takes all the text. |
| TokenShapes.DollarIsSymbol | src/sql.rs:81-84 | In Trino, and elsewhere without a tag and a second dollar, a dollar is a symbol. |
| TokenShapes.NumberIsOne | src/sql.rs:127-134 | A digit and all letters, digits, dots and underscores behind it are one number. |
| TokenShapes.WordIsOne | src/sql.rs:135-144 | A letter or underscore and all word characters behind it are one word. |
| TokenShapes.BlanksAreOne | src/sql.rs:145-149 | A stretch of ASCII white space is one token. |
| TokenShapes.SymbolIsOne | src/sql.rs:150-157 | Any other character is a token of its own, and only the semicolon separates. |
| Statements.StatementRangesIn | src/sql.rs:197-218 | The splitting loop returns the statement ranges of the definition. |
| Statements.StatementsAreSound | src/sql.rs:184-218 | Statements are in order and apart; every code token lies in one, and a separator ends one or follows none; each goes from its first code token to its separator, or at the end to its last token. |
| Statements.StatementsByKind | src/sql.rs:184-218 | The same by the kinds and texts of tokens alone: each statement starts with a token that is no comment, separator or blank, ends with its separator or, when no such token and no separator follows, with its last token, holds no separator before its end, and every such token lies in one. |
| Statements.RangesCount | src/sql.rs:197-218 | The number of ranges is the count that `validate_single_for` makes, from any point in the token list. |
| Statements.ValidateSingleFor | src/sql.rs:328-351 | It accepts exactly the texts with one statement range, and reports no statement exactly when there is none. |
| Cursor.CursorStatement | src/sql.rs:272-294 | The result is the statement that holds the offset; else, outside statements and comments, one reached over blanks of the same line with no statement between; nothing exactly when there is no such statement. |
| Cursor.CursorIsRight | src/sql.rs:272-294 | By characters and kinds alone: the statement around the offset; else none in a comment; else the first statement that only white space without a line break parts from the offset, or none. |
| Cursor.GapHoldsNoStatement | src/sql.rs:283-294 | Between an offset and a statement it reaches lies no other statement. |
| Cursor.HighlightIsSound | src/sql.rs:299-317 | The highlight holds the statement, adds only same-line white space, and goes to the edge of the line or does not leave the statement. |
| TokenEquivalence.SignificantOf | src/sql.rs:850-875 | The loop returns the tokens that are not blank, each with whether white space and a line break come before it. |
| TokenEquivalence.SameTokensIsEquivalence | src/sql.rs:887-930 | In each dialect the check is reflexive, does not depend on which text is the original, and accepted changes can be chained. |
| TokenEquivalence.SameTokensSplitAlike | src/sql.rs:883-930 | Accepted formatting keeps the number of statements, and with it the verdict of `validate_single_for`. |
| AcceptedText.AcceptedIsKept | src/sql.rs:877-930 | A formatted text is accepted if and only if it has as many tokens of the same kinds, the same text in every token that is no word and in every word next to a dot, other words up to ASCII letter case, the same runs of symbols without a blank, every word and the string after it together or apart as before, and in Postgres the line breaks before continued strings. |
| AcceptedText.MarksAreRight | src/sql.rs:850-875 | A token is marked as after white space, or as after a line break, exactly when a blank, or a blank or comment with a line break, stands before it. |
| Pieces.CutLex | src/sql.rs:52-182 | A text that is cut behind a token, where no token goes on, is read as the tokens before the cut. |
| Pieces.EveryStatementIsSingle | src/sql.rs:197-218 | The text of every statement range, cut out, is one statement from its start to its end, so `validate_single_for` accepts it; it has the tokens that the text has there. |
| Pieces.SameTokensByStatement | src/sql.rs:883-930 | Formatting that is accepted for a text is accepted for each of its statements, cut out: each keeps its own tokens. |
| CaseBlind.HeadBlind | src/sql.rs:52-182 | The next token has the same length and kind in every letter case, unless a dollar-quoted string is changed itself. |
| CaseBlind.RelexSameShapes | src/sql.rs:52-182 | Tokens in another letter case, written one after the other, are read as themselves. |
| Recase.CaseOtherKeywords | src/sql.rs:780-841 | The loop with its parenthesis stack and in-place replacements changes exactly the keywords of the definition, which `Keywords.KeywordsAreRight` describes without it. |
| Keywords.KeywordsAreRight | src/sql.rs:780-841 | A token changes exactly when it is a word beside no dot and a function before a parenthesis, a literal prefix before a string, a type behind the AS of the innermost cast around it, or part of NULLS FIRST or NULLS LAST; then all its ASCII letters get the wanted case and nothing else changes. |
| Keywords.CastTypeIs | src/sql.rs:791-831 | The parenthesis stack says that a word is in the type of a cast exactly when the innermost parenthesis around it is that of a cast and an AS stands right inside it before the word. |
| Keywords.WordsInOrder | src/sql.rs:781-784 | The words are the tokens that are not blank, in order and without a gap. |
| Recase.RecaseKeepsRanges | src/sql.rs:780-841 | Recased text has the ranges and kinds of the original, for every text and dialect. |
| Recase.RecasePassesCheck | src/sql.rs:780-841 | Recased text always passes `same_tokens_for` against the original. |
| Recase.RecaseTwice | src/sql.rs:780-841 | Recasing twice is recasing once. |
| Stability.HeadStable | src/sql.rs:52-182 | A token is read the same when the text after it is replaced by a similar one, or ends. |
| Whitespace.NormalizeLayoutWhitespace | src/sql.rs:488-506 | The loop writes the normalized text of the definition. |
| Whitespace.NormalizedParts | src/sql.rs:488-506 | Every token that is not blank stays; a blank becomes a line break when it has one and the token before it is a line comment, and else a space. |
| Whitespace.NormalizeKeepsTokens | src/sql.rs:488-506 | Reading the normalized text gives the same tokens that are not blank: kind, text, order, and whether blanks come before; also after line comments. |
| Whitespace.NormalizePassesCheck | src/sql.rs:488-506 | Normalized text passes `same_tokens_for` if and only if the line breaks before continued strings survive; always outside Postgres. |
| Whitespace.ContinuedStringFails | src/sql.rs:488-506 | A Postgres text that fails the check after normalization: two literals with a line break between them. |
| WhitespaceTwice.NormalizeTwice | src/sql.rs:488-506 | Normalizing twice is normalizing once if and only if no two blank tokens stand next to each other. |
| WhitespaceTwice.VerticalTabFails | src/sql.rs:488-506 | In every dialect a vertical tab before a space is a text that the second pass changes. |
| Mask.FindPrefix | src/sql.rs:439-442 | The prefix search ends, with the first prefix that the text does not hold. |
| Mask.CutsInOrder | src/sql.rs:445-475 | Masks are in order and apart, also when one is widened over a literal prefix. |
| HiddenTokens.CutsAreHidden | src/sql.rs:445-475 | Hidden are exactly the strings and quoted identifiers, in Kyuubi only strings in single quotes right behind one of ten prefixes; each with such a prefix. |
| Mask.RestoreOne | src/sql.rs:482-485 | Replacing one marker puts back its text and nothing else: the marker occurs once, and no other arises. |
| Mask.NoSmallerMarker | src/sql.rs:439-485 | No marker occurs by accident, across a boundary, or in restored text. |
| Mask.RestoreMasked | src/sql.rs:436-486 | Masking any ordered cuts and restoring them is the identity. |
| Mask.MaskThenRestore | src/sql.rs:436-486 | Masking the quoted tokens of any text and restoring them is the identity. |
| MarkerGaps.RestoreBetween | src/sql.rs:482-485 | In any text that holds the markers in order, between gaps without their prefix, restoring puts each original in the place of its marker and changes nothing else. |
| MarkerGaps.CutsAreFenced | src/sql.rs:445-475 | At the ends of a hidden token no marker prefix can arise with its neighbours, in front always and behind unless it ends the text. |
| Format.MaskQuoted | src/sql.rs:443-476 | The mask loop writes the masked text and keeps what each marker stands for. |
| Format.RestoreMarkers | src/sql.rs:482-485 | The restore loop replaces the markers in their order. |
| Format.FormatLayout | src/sql.rs:436-486 | Whenever the layout engine leaves the markers in order, between gaps without their prefix, the result has every hidden token verbatim between the same gaps. |
| Format.HiddenTokensStay | src/sql.rs:436-486 | The gaps that the layout engine leaves around the markers determine the result: every hidden token verbatim between them. |
| Format.EngineKeeps | src/sql.rs:401-486 | A layout engine that changes letter case and white space, joins and splits no words, and keeps markers whole leaves every hidden token verbatim between the same words, unless the text holds the marker prefix in other letters. |
| WordSpacing.SameMarkers | src/sql.rs:480-485 | What such an engine returns holds the markers in order, between gaps with the same words and without the prefix. |
| Format.RespacingKeeps | src/sql.rs:433-486 | A layout engine that changes only how much white space stands where there is some keeps every hidden token verbatim and the rest up to that. |
| Format.IdentityKeeps | src/sql.rs:433-486 | So does one that changes nothing. |
| Respacing.NormalizedSkeleton | src/sql.rs:488-506 | Normalization changes nothing but white space where there is some. |
| Format.FormatStatementFor | src/sql.rs:385-431 | Each outcome if and only if its condition holds; formatted text is the recased layout, keeps what `AcceptedText.IsKept` lists, splits like the original and is stable under recasing. |
| HiddenTokens.FormatsRight | src/sql.rs:395-408 | Too short is the assistant's text of at most 80 characters when each white space is one space; formatted is what begins, after comments, with one of ten words in any letter case. |
| Authentication.StepKeepsInv | src/external_auth.rs:99-440 | Every step of callers, jobs and sign-outs keeps the invariant of waiter counts, cancellation, flights and tokens. |
| Authentication.RunKeepsInv | src/external_auth.rs:99-440 | So does every interleaving. |
| Authentication.SingleFlight | src/external_auth.rs:319-362 | At most one flight is open; its waiter count is the number of its live waiters; it is cancelled exactly when that is zero or a sign-out took it down. |
| Authentication.LastWaiterCancels | src/external_auth.rs:430-440 | A caller that gives up cancels the flight exactly when nobody else waits for it. |
| Authentication.FlightsOnlyAge | src/external_auth.rs:337-368 | A cancelled flight stays cancelled and gains no waiter; a result never changes. |
| Authentication.OnlyJobsPublish | src/external_auth.rs:382-404 | A token appears only from the job of the entry's flight, while the entry is valid, the flight is not cancelled, and somebody waits. |
| Authentication.SignOutIsFinal | src/external_auth.rs:99-106 | Once `invalidate` returned, no later state of the entry holds a token, and only callers that had looked before can still return one. |
| Authentication.LateTokenIsPossible | src/external_auth.rs:408-421 | A run in which a caller that looked in time returns a token after the sign-out. |
| Authentication.TokenCanStillReturn | src/external_auth.rs:408-421 | From every reachable state, each caller that looked in time and whose flight has not failed returns a token in some continuation. |
| Authentication.LateTokenWindow | src/external_auth.rs:99-106 | After a sign-out returned, exactly those callers can return a token. |
| Authentication.RejectedIsDropped | src/external_auth.rs:337-362 | A caller never gets back the token that it says was rejected: that is forgotten, and the caller waits; any other cached token is returned at once. |
| SharedSignIn.WaiterGetsAnswer | src/external_auth.rs:408-416 | Everyone who waits for a flight with an answer returns it, while the entry is valid. |
| SharedSignIn.CancelledWaiterLeaves | src/external_auth.rs:409-411 | A waiter that is cancelled, or finds the entry invalid, leaves without an answer, even when there is one. |
| SharedSignIn.WaitsForAnswer | src/external_auth.rs:408-421 | Without an answer a waiter goes on, until its time is over. |
| SharedSignIn.NewCaller | src/external_auth.rs:281-335 | A cancelled caller and one of an invalid entry end before the lock; `cached` gives what the valid entry holds. |
| SharedSignIn.AnswerIsShared | src/external_auth.rs:382-404 | A token of a flight that nobody took down is returned at once to everyone who comes later, and after its failure the next caller starts a flight; the answer of any other flight changes neither token nor failure. |
| SharedSignIn.RejectionIs | src/external_auth.rs:300-312 | A rejected token is forgotten and the failure recorded exactly when it is the cached one. |
| SharedSignIn.SignOutIs | src/external_auth.rs:99-106 | A sign-out forgets the token and cancels the flight of the entry, and no other. |
| SharedSignIn.LateTokensAreFew | src/external_auth.rs:99-106 | After a sign-out returned, a caller that hands out a token had it already, was about to return it, or had looked at its flight. |
| SignIn.EntryCell.Invalidate | src/external_auth.rs:99-106 | The in-place section is the step of the transition system. |
| SignIn.EntryCell.Join | src/external_auth.rs:337-362 | The cached token exactly when there is one that was not rejected; else the token is forgotten, and the caller waits on the flight that is not cancelled or on a new one, which it starts. |
| SignIn.EntryCell.Complete | src/external_auth.rs:382-404 | The completion block is the step of the transition system; the answer becomes that of the entry exactly when the entry is valid and its flight is this one and not cancelled. |
| SignIn.EntryCell.Leave | src/external_auth.rs:430-440 | `Waiter::drop` is the step of the transition system; the last waiter cancels. |
| SignIn.EntryCell.Reject | src/external_auth.rs:300-312 | The cached token is forgotten and the failure recorded exactly when it is the rejected one. |
| SignIn.Service.Configure | src/external_auth.rs:147-160 | Exactly the entries of connections that are configured for this sign-in with the same settings stay, and they and their flights are untouched; the others are invalidated. |
| SignIn.Service.Clear | src/external_auth.rs:250-267 | Exactly the entries of the connection are invalidated and go, and their flights are cancelled. |
| SignIn.Service.Secret | src/external_auth.rs:161-203 | Each refusal if and only if its condition holds; else one valid entry per connection is granted: the one that exists, or a new one without a token. |
| ResultCursor.Runner.FinishCancelledFetch | src/worker.rs:1157-1178 | A cancelled fetch ends with the operation closed and the cursor consumed; else nothing changes. |
| ResultCursor.Runner.FinishPreviewExecution | src/worker.rs:748-770 | A completion that the server reports as cancelled ends the fetch unless another thread resets the flag at once; else nothing of the cursor changes. |
| ResultCursor.Runner.FetchBatch | src/worker.rs:800-878 | One batch is delivered in order, held back, or ends the page: consumed only after a cancellation, complete only at the end of the result, and else only at a limit of the session or of the preview. |
| ResultCursor.Runner.FetchPage | src/worker.rs:795-889 | The fetch loop delivers the rows of a full page, or ends early for one of those reasons. |
| ResultCursor.Runner.EndPage | src/worker.rs:833-873 | At the preview limit a live Kyuubi cursor holds the batch back and stays available; elsewhere the batch over the limit goes and the operation closes; at the end of the result the cursor is complete. |
| ResultCursor.Runner.FetchPreview | src/worker.rs:772-907 | In every dialect, without cancellation, error or limit, the next 1000 rows or all that are left are delivered, and the result is complete exactly when fewer than 1000 were left; with a target present the rows of the operation are conserved in order. |
| ResultCursor.Runner.AppendPreview | src/worker/run_export.rs:27-69 | The preview keeps as many of the first rows as fit into its row and byte limits and one more does not; without memory none; it is full exactly when a row was left over or the row limit is reached. |
| ResultCursor.Runner.SpoolRest | src/worker.rs:1013-1058 | The fetch loop of a drain spools the rest of the session in order. |
| ResultCursor.Runner.Drain | src/worker.rs:916-1108 | Refused exactly when the request does not match the cursor, and then nothing changes; lost exactly when a call or check failed; accepted once per operation; a success spools the whole result in order if and only if it was in reach; a failure leaves the cursor consumed. |
| ResultCursor.Runner.Run | src/worker.rs:646-746 | Says whether it submitted its statement; if so the rows of the operation are those that the server gave for it, none is missing, and without cancellation and limit its first page is delivered; else the operation is the one before and exactly the rows delivered or held before are missing. |
| ResultCursor.Runner.WaitForState | src/worker.rs:686-712 | The state that the statement comes to, after an early cancellation is passed on, and whether it is cancelled by then; it fails exactly when a call fails or the statement still runs. |
| ResultCursor.Runner.HandleError | src/worker.rs:238-263 | After any error no target is left, and the session is closed or gone. |
| ResultCursor.Runner.Serve | src/worker.rs:207-263 | Between any two commands the rows of a live operation are conserved, in every behaviour of the server and of other threads. Only a submitted run changes the whole result, to what the server gave; each command says which rows then are out of reach. |
| ResultCursor.Runner.Work | src/worker.rs:207-263 | Over every sequence of commands: what is in reach, and what a drain that succeeds spools, is what the server gave for the last submitted statement without the rows that abandoned executions dropped since then; it is all of it if and only if they dropped none. |
| ResultCursor.OldRowsUnderNewExecution | src/worker.rs:646-665 | A run, a run cancelled before its submission and a page request end with an available cursor and a target, and without the first page. |
| LogHistory.History.Record | src/logs.rs:223-253 | Adds the entry to its group, then removes only groups that have to go. |
| LogHistory.History.Trim | src/logs.rs:315-352 | A group is removed exactly when it is not protected and had to go when the removed ones before it were gone; of each kind the oldest go. |
| Retention.RemovedExactly | src/logs.rs:311-352 | A group goes exactly when it is not that of the last error, of the highest execution or, without both, the newest, and without the removed groups before it there are still more than 100 groups with an execution or 50 without, of its kind, or more than 8 MiB of text. |
| Retention.RemovalIs | src/logs.rs:353-377 | A removal leaves the other groups with their entries, and puts the retention line in front the first time. |
| Retention.RecordedIs | src/logs.rs:223-253 | A new entry has the next number and goes to the group of its execution, or to a new group when there is none. |
| LogHistory.History.Retain | src/logs.rs:311-378 | Afterwards at most 100 execution groups and 50 others are left, and the text is in its budget up to the retention line unless two or fewer groups are left; what is kept is over the budget if and only if the protected groups and an existing retention line are. |
| LogHistory.History.Clear | src/logs.rs:255-262 | Empties the history; the counters go on. |
| LogHistory.TrimEnd | src/logs.rs:331-352 | When the loop ends, also early, both caps hold, and the text budget unless two or fewer groups are left. |
| LogHistory.OverBudget | src/logs.rs:331-352 | The kept text is over the budget if and only if what can never go is over it. |
| LogHistory.LargeEventStays | src/logs.rs:290-344 | A run whose text has any given size after one event. |
| LogHistory.LineExceedsBudget | src/logs.rs:357-371 | A run in which the retention line exceeds the budget. |
| LogHistory.AddedConsistent | src/logs.rs:223-251 | Recording keeps the history consistent with all that was recorded since the last clear. |
| LogHistory.RemovalConsistent | src/logs.rs:353-377 | So does removing any groups that are not protected. |
| LogHistory.Accounting | src/logs.rs:208-253 | The cached total is the sum over entries and over groups and the retention line; that line is at most one and in front; other ids increase strictly. |
| LogHistory.NothingThatMattersIsLost | src/logs.rs:290-377 | The latest error is the last one recorded; the highest execution recorded has its group and all its entries; a present group holds all its entries in order. |
| Calendar.CivilIsExact | src/logs.rs:25-50 | The date of a day is a Gregorian date (section 3.2.1 of ISO 8601:2004) whose day number, counted from 1970-01-01, is that day. |
| Calendar.ConsecutiveDates | src/logs.rs:25-50 | The next day gives the next date. |
| Calendar.EarlierIsSmaller | src/logs.rs:25-50 | Different days have different dates, in order. |
| Calendar.TimeIsExact | src/logs.rs:25-50 | Hour, minute and second are in range and make up the seconds again. |
| Calendar.YearPartIsRight | src/logs.rs:25-50 | The division by squeezed years finds the year of the era that holds the day. |
| Glob.GlobMatch | src/model.rs:921-948 | The loop with one backtrack point ends, and is true exactly when the text is one part after another for the characters of the pattern: any text for `*`, one character for `?`, else the character itself. |
| Glob.MatchesIffSplit | src/model.rs:912-914 | The recursive meaning of `*` and `?` is that decomposition. |
| Glob.NewStar | src/model.rs:928-946 | All that an older star could still do, a newer one can do, so one backtrack point is enough. |
| SchemaRules.ParseSchemaRules | src/model.rs:608-650 | The line loop returns the rules of the definition, or the number of the first invalid line. |
| SchemaRules.SchemaRulesRoundTrip | src/model.rs:606-662 | Accepted lists are well formed, and a list is well formed exactly when printing and parsing return it. |
| SchemaRules.LineSays | src/model.rs:611-646 | A line is read as a rule exactly when it says that rule: two names with an equals sign between, each with a star for a prefix, blanks around each. |
| SchemaRules.LineEnds | src/model.rs:610 | A line ends at a line feed, without the carriage return before it. |
| Titles.CandidatesDiffer | src/model.rs:71-108 | Two copy titles with different numbers differ, although they are cut to length. |
| Titles.CandidateIs | src/model.rs:71-108 | A copy title is the longest part of the title that fits, and the suffix with its number. |
| Titles.CopiedTitle | src/model.rs:71-108 | The first free copy title, found within one try more than there are used titles. |
| Titles.UniqueTabTitle | src/model.rs:111-120 | The title itself when it is free, else the first free copy title. |
| WorkspaceRepair.Workspace.OwnTabs | src/model.rs:1737-1755 | Every connection owns a tab and every tab has an existing connection; a tab with one keeps it, and an added tab is the first of its connection. |
| WorkspaceRepair.Workspace.ActivateTabs | src/model.rs:1756-1787 | Exactly the connections have an active tab that they own; that of the connection in front is the tab in front. |
| WorkspaceRepair.Workspace.UniqueTitles | src/model.rs:1788-1799 | Titles are tidy and unique per connection, and the first tab that asks for a title gets it. |
| Consistency.RetitledIsTidy | src/model.rs:1788-1799 | Every repaired title is trimmed and not empty, if the number of tabs has at most 51 digits. |
| WorkspaceRepair.Workspace.SanitizeThreads | src/model.rs:1518-1524 | Thread ids are trimmed and unique; exactly the empty ones and repetitions go. |
| WorkspaceRepair.Workspace.AttachSelected | src/model.rs:1801-1819 | In a workspace before version 4 only the selected conversation gets the tab in front. |
| WorkspaceRepair.Workspace.LinkTabs | src/model.rs:1559-1586 | A conversation keeps its tab exactly when the tab exists and it is the most recent one with it; others remember the connection; all links lead to what exists. |
| Consistency.ClaimDecides | src/model.rs:1560-1577 | In the order of activity a tab is free for a conversation exactly when it is the most recent one with that tab. |
| Consistency.TabKeepsOne | src/model.rs:1555-1573 | A tab that exists and had a conversation keeps one, the most recent. |
| WorkspaceRepair.Workspace.PruneSharedCatalogs | src/model.rs:1674-1706 | Exactly the catalogs with a member stay, in order, and the others are reported; a preferred connection that is no member and references to missing catalogs go, and nothing else. |
| WorkspaceRepair.Workspace.SanitizeScope | src/model.rs:1661-1668 | The scope names existing connections only, and an empty selection becomes all. |
| WorkspaceRepair.Workspace.Normalize | src/model.rs:1712-1827 | Any workspace becomes consistent, and the state of every tab, title, active tab, conversation, profile, catalog and scope is stated from that before; a second run changes nothing of the ownership and link parts, and no title. |
| Repairs.TabsAreRepaired | src/model.rs:1737-1799 | A tab keeps a connection that exists, else gets that in front or the first; a title is trimmed, and the first free copy when an earlier tab of the connection has it; a connection without a tab gets one. |
| Repairs.ActiveAreRepaired | src/model.rs:1756-1787 | The tab in front is active for its connection; another keeps its active tab when it owns that, else its first one becomes active. |
| Repairs.ConversationsAreRepaired | src/model.rs:1555-1586 | The first conversation of each trimmed thread id stays; of those with one tab the most recent keeps it; the others remember its connection if that exists. |
| Repairs.CatalogsAreRepaired | src/model.rs:1686-1704 | Exactly the catalogs with a member stay, in their order, and only a preferred connection that is no member goes. |
| AtomicFile.WorkspaceFile.Save | src/storage.rs:121-147 | At every step a crash leaves what it could leave before or all of the new data; after a success only the new data; after a failure what readers saw before, unless the rename was done. |
| AtomicFile.WorkspaceFile.Stage | src/storage.rs:124-135 | Writing and syncing the temporary file changes nothing at the path. |
| AtomicFile.WorkspaceFile.Install | src/storage.rs:136-138 | After the rename the path leads to the old or the new file, after the sync of the directory to the new one. |
| AtomicFile.RenameIsSafe | src/storage.rs:135-137 | Renaming a synced file can only show the old or the complete new content. |
| AtomicFile.SyncsAreNeeded | src/storage.rs:124-138 | Without the sync of the file a crash can leave anything under the path, and before that of the directory still all that it could leave before. |
| Saver.SaverThread.Serve | src/storage.rs:213-243 | For every arrival timing and every way in which writes fail: attempts in order of submission, each flush with its own snapshot and result, a save is left out exactly when the next command is a save that has arrived, so each is written or superseded by a later one with only saves between; everything up to the stop. |
| Saver.SaverThread.WriteOne | src/storage.rs:232-241 | One attempt, its receipt or error, and what the file can then be after a crash. |
| Saver.DurableGrows | src/storage.rs:213-243 | The states of the file system are those of the attempts one after the other, each safe and a success ending with only its snapshot; with one more attempt every state still leads to the first content or a whole snapshot, and after a success to that snapshot or a later one. |
| Saver.LastSnapshotIsWritten | src/storage.rs:213-243 | The last snapshot before the end is the last one written. |
| Saver.AcknowledgedIsDurable | src/storage.rs:260-268 | The attempt of an acknowledged flush ended in a state that holds only its snapshot, and from then on no crash brings back anything older. |
| Saver.FinishLeavesSnapshot | src/storage.rs:270-286 | After `finish` succeeds, the file is its snapshot, also after a crash, whatever was sent before. |
| CatalogCache.CoversMeansReads | src/catalog.rs:140-152 | A scope covers another exactly when it reads every part that the other reads. |
| CatalogCache.Catalog.Retain | src/catalog.rs:297-304 | Hidden schemas go, also from the stopped refresh. |
| CatalogCache.Catalog.ApplySchemas | src/catalog.rs:307-325 | Exactly the shown names are left; a schema that was known and that the list names once keeps its relations and times, and any other is new; the stopped refresh remembers only known schemas. |
| CatalogCache.Catalog.ApplyRelations | src/catalog.rs:329-397 | A list replaces the relations: each has the kind and comment of its last entry and no error, one that was known and is named once keeps its columns and their time, and names not listed are gone; a single relation gets its own answer and changes no other node. |
| CatalogCache.AllAsListed | src/catalog.rs:343-361 | The same of the relations, without the step that merges an entry. |
| CatalogCache.OneAsRead | src/catalog.rs:362-397 | A relation that was read alone keeps its columns and has the kind and comment of its entry, or is gone when there is none. |
| CatalogCache.Catalog.ApplyColumns | src/catalog.rs:401-426 | Every relation, or only the given one, gets its columns, or none when the answer has no rows for it. |
| CatalogCache.Catalog.SetError | src/catalog.rs:430-460 | The error lands on the node of its scope, if the cache has it, and nowhere else. |
| CatalogCache.RelistedPush | src/catalog.rs:343-361 | Taking nodes out of the old list entry by entry gives each relation its last entry and its own columns. |
| CatalogCache.RefreshTables | src/catalog/worker.rs:1031-1047 | Table by table, each relation gets its columns or its error; an interrupt leaves the other schemas alone. |
| CatalogCache.RefreshSchema | src/catalog/worker.rs:1009-1029 | One schema becomes what the answers make of it, with the fallback to single tables. |
| CatalogCache.ResumedIs | src/catalog/worker.rs:945-959 | A refresh goes on where one stopped that began less than a period before, without the schemas that are shown no more; else it starts over. |
| CatalogCache.RefreshConnection | src/catalog/worker.rs:932-1007 | Every schema not resumed is read once, in any order; an interrupted refresh remembers exactly the schemas that it read completely, and leaves all others but one untouched or read with faults. |
| CatalogCache.CompleteIsFresh | src/catalog/worker.rs:1009-1029 | A complete refresh of a schema leaves just what the server said, whatever the cache held. |
| CatalogCache.RefreshAgreesWithFresh | src/catalog/worker.rs:932-1007 | A complete refresh of any cache gives the same schemas as of an empty one. |

## Left out

- Byte offsets: text is a sequence of characters, so offsets inside a character, for which `range_at` returns nothing, do not exist here.
- `sqlformat`: an arbitrary text function. The word lists `FUNCTIONS` and `TYPES` and the Unicode tables are arbitrary.
- Format.FormatStatementFor: leaves out the options of the layout engine and the line width that callers choose.
- Authentication: the browser, timers, progress callbacks and zeroizing are left out; a deadline is a step in which a caller gives up. A critical section under the entry lock is one step; accesses to `valid` outside it are steps of their own.
- SignIn.Service.Secret: whether the profile is valid and uses TLS is a parameter.
- ResultCursor: the session is a sequence consumed from the front; what the server and the other threads do comes from a `World` of answers per command. The polling loop, keep-alive, pacing, `run_export` requests, transfer limits, messages to the interface and exact memory budgets are left out, and a drain's spool is a sequence.
- ResultCursor.Runner.Serve: the interface is taken to hold the first rows that it was sent for the current execution; what it shows of others is left out.
- LogHistory: texts are their sizes, counters are unbounded, and the sentinel group of the retention line is −1.
- Calendar: the zero-padded text of the label and times before 1970.
- Glob.GlobMatch: trimming and lower-casing of the pattern and lower-casing of the text come before it.
- `normalize`: sign-in migration, profile and catalog settings, conversation titles and notes, editor settings and the JSON form.
- WorkspaceRepair.Workspace.Normalize: that titles are tidy afterwards is promised while the number of tabs has at most 51 digits, since a longer copy suffix fills the 60 characters.
- `detach_tab`, `remove_unstarted`, `conversation_tab_title` and the search-scope toggle: one-step changes of the same fields.
- AtomicFile: one path with one temporary file at a time, since temporary names are unique; a crash during a failed removal leaves a file that nothing refers to. File permissions and the workspace lock are left out.
- Saver.SaverThread.Serve: works on the whole sequence of commands with an oracle for arrivals instead of two running threads; a snapshot is its encoded text.
- CatalogCache: an error of a node is one optional record of message, member and id; identities, catalog keys, the parsing of rows, and requests that arrive in the middle of a refresh are left out.
- CatalogCache.RefreshConnection: the order by age of the last read is left open, so the result is proved for every order.
- Views, themes, exports, pagination, activity, dbt, the keychain, TLS and the connectors.
