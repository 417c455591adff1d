# Literary bot: message routing and the book-of-the-month vote

This project models the core of a Telegram literary bot in Dafny.

`MessageHandling` receives every text message with its chat id and picks one
handler by seven global mode flags (puzzle, add book, books by author, books
by year, remove book, edit book, vote). The multi-message book flows keep, per
chat, the step they are at (`bookInputSteps`) and a draft of the answers so far
(`bookData`, answers joined by line breaks). The default handler recognises
the commands. Three of them (`/vote`, `/revote`, `/voteresults`) are gated by
the day of the month against `VOTING_END_DAY`.

`BookVoting` runs the monthly vote:

- Each chat builds a ballot of up to three distinct catalogue numbers.
- A per-book counter caches how many ballots hold each book.
- The winner is found with a weighted tally: the first pick is worth 3 points, the second 2, the third 1.
- The statistics list every candidate with its raw count.

The model is split into four modules:

- `Text` covers the Java library behaviour the handlers depend on:
  - `String.trim` strips every character up to U+0020;
  - `split("\n")` drops trailing empty pieces, and returns an input without a break whole;
  - `Integer.parseInt` rejects surrounding blanks and values outside `int`;
  - the decimal rendering of an `int`.
- `BookStore` is the read-books store seen through what its SQL statements do to one chat's ordered rows. `Store` is a class holding a map from chat to rows. Author and year are optional: a row inserted by updateReadBooks with its title only has them NULL (`None`). NULL equals nothing in a `WHERE`, reads as "null" through `getString` and as 0 through `getInt`.
- `Voting` holds the `BookVoting` class, with its ballots and cached counters as map fields. It also has the ghost definitions of a book's holders and weighted score, and the lemmas that relate them.
- `Router` holds the `MessageHandling` class, with its flags, vote gate, steps and drafts as fields.
  - Each handler is a method whose `ensures` ties the new fields, the chat's new rows and the reply to a function of the old state (`Route`, `CommandStep`, ...).
  - Lemmas about those functions state what the flows achieve and where they get stuck.

A Java exception that escapes `parseMessage` is the reply `Thrown(...)`. Any field written before the throw keeps its new value, as in Java.

## Model

| member | source | states |
|---|---|---|
| Text.TrimStartShape | src/main/java/org/example/MessageHandling.java:384 | trim's leading half keeps a suffix that is empty or starts with a non-blank, and every character it drops is at most U+0020 |
| Text.TrimEndShape | src/main/java/org/example/MessageHandling.java:384 | trim's trailing half keeps a prefix that is empty or ends with a non-blank, and every character it drops is at most U+0020 |
| Text.TrimShape | src/main/java/org/example/MessageHandling.java:384 | trim keeps one contiguous slice of the text: everything before and after it is at most U+0020, its first and last characters are not, and it is empty exactly when the whole text is blank |
| Text.TrimIdempotent | src/main/java/org/example/MessageHandling.java:401-402 | trimming an already trimmed answer again (as the YEAR step does with the title and author) changes nothing |
| Text.IndexOfIsFirst | src/main/java/org/example/MessageHandling.java:400 | the line break split uses is the first one: the text before it has none |
| Text.PiecesHaveNoBreak | src/main/java/org/example/MessageHandling.java:400 | no piece of a split holds a line break |
| Text.DropShape | src/main/java/org/example/MessageHandling.java:400 | split's dropping of trailing empty pieces keeps a prefix that is empty or ends in a non-empty piece, and drops only empty pieces |
| Text.SplitLinesShape | src/main/java/org/example/MessageHandling.java:400 | no field of split("\n") holds a line break, and for a text with a break the last field, if any, is not empty |
| Text.PiecesSplitAt | src/main/java/org/example/MessageHandling.java:608 | a break-free first line splits off as the first piece |
| Text.PiecesJoin | src/main/java/org/example/MessageHandling.java:608 | break-free fields joined with line breaks split back into the same fields, before empty ones are dropped |
| Text.SplitJoin | src/main/java/org/example/MessageHandling.java:608 | split("\n") is the inverse of joining break-free fields whose last field is not empty |
| Text.SplitTwo | src/main/java/org/example/MessageHandling.java:400-402 | the add draft "title\nauthor" splits into exactly its two fields when the author is not empty |
| Text.SplitFour | src/main/java/org/example/MessageHandling.java:608-613 | the edit draft "number\ntitle\nauthor\nyear" splits into exactly its four fields when the year is not empty |
| Text.SplitTrailingBreak | src/main/java/org/example/MessageHandling.java:391-402 | a one-line text followed by an empty last field splits into at most one field |
| Text.SplitKeepsPrefix | src/main/java/org/example/MessageHandling.java:607-608 | appending a line to a draft never changes the first n fields it already splits into |
| Text.DropKeepsPrefix | src/main/java/org/example/MessageHandling.java:607-608 | appending pieces never changes the first n pieces that survive the dropping of trailing empty ones |
| Text.DropAppend | src/main/java/org/example/MessageHandling.java:608 | dropping trailing empty pieces of p + q reaches into p exactly when q is all empty |
| Text.PiecesAppend | src/main/java/org/example/MessageHandling.java:607-608 | the pieces of s + "\n" + x are the pieces of s followed by the pieces of x |
| Text.Numbered | src/main/java/org/example/MessageHandling.java:280-281 | listing entry i is the number i + 1 paired with item i, one entry per item |
| Text.NumberItems | src/main/java/org/example/MessageHandling.java:280-282 | the numbering loop produces exactly Numbered(items) |
| Text.ParseInt | src/main/java/org/example/MessageHandling.java:397 | a successful parse yields a 32-bit value and the text starts with a digit or a sign, so surrounding blanks are rejected |
| Text.ParseOverflow | src/main/java/org/example/BookVoting.java:89 | digits whose value does not fit in an int do not parse: parseInt throws on overflow |
| Text.ParseTrailingBlank | src/main/java/org/example/BookVoting.java:89 | an answer ending in a blank does not parse, because parseInt does not trim |
| Text.ShowNat | src/main/java/org/example/Storage.java:411 | the decimal rendering of a natural number is a non-empty string of digits |
| Text.ShowInt | src/main/java/org/example/Storage.java:411 | an int renders as a non-empty string without a line break |
| Text.ShowNatValue | src/main/java/org/example/Storage.java:411 | the digits rendered for n denote n |
| Text.ParseShow | src/main/java/org/example/MessageHandling.java:619 | parsing the year rendered into a listed row gives that year back |
| BookStore.RenderSplits | src/main/java/org/example/Storage.java:408-411 | a row rendered as "title\nauthor\nyear" splits back into its title, its author as read ("null" for NULL) and its rendered year (0 for NULL) when neither title nor author text holds a break |
| BookStore.TitlesAt | src/main/java/org/example/Storage.java:72-94 | entry i of getReadBooks is the title of the chat's row i |
| BookStore.TitlesByAuthorListed | src/main/java/org/example/Storage.java:254-280 | a title is listed for an author exactly when some row of the chat has that title and that author; a NULL author matches no author |
| BookStore.TitlesByYearListed | src/main/java/org/example/Storage.java:285-311 | a title is listed for a year exactly when some row of the chat has that title and that year; a NULL year matches no year |
| BookStore.ByAuthorAppend | src/main/java/org/example/Storage.java:260-267 | the by-author listing keeps row order: the listing of two runs of rows is the listing of the first followed by that of the second |
| BookStore.ByYearAppend | src/main/java/org/example/Storage.java:291-298 | the by-year listing keeps row order: the listing of two runs of rows is the listing of the first followed by that of the second |
| BookStore.AddMissingUnlisted | src/main/java/org/example/Storage.java:367-379 | the title-only rows updateReadBooks inserts have NULL author and year, so they never appear in a by-author or by-year listing |
| BookStore.ReplaceAt | src/main/java/org/example/Storage.java:208-229 | the edit UPDATE rewrites every row equal to the old (title, author, year) to the new one and leaves every other row as it was |
| BookStore.RemoveAt | src/main/java/org/example/MessageHandling.java:540 | removing list entry k shortens the list by one, keeps the entries before k and shifts those after it down by one |
| BookStore.KeepTitlesAppend | src/main/java/org/example/Storage.java:358-365 | the DELETE pass over two runs of rows is the pass over each run |
| BookStore.KeepAllTitles | src/main/java/org/example/Storage.java:358-365 | the DELETE pass removes nothing when every stored title is still listed |
| BookStore.KeepAllTitlesSplit | src/main/java/org/example/Storage.java:358-365 | if the DELETE pass keeps all of a + b, it keeps all of a and all of b |
| BookStore.KeepTitlesShorter | src/main/java/org/example/Storage.java:358-365 | the DELETE pass never adds rows, and one that keeps the count keeps every row |
| BookStore.AddNothingMissing | src/main/java/org/example/Storage.java:367-379 | the INSERT pass adds nothing when every listed title already has a row |
| BookStore.TitlesRemoveAt | src/main/java/org/example/MessageHandling.java:538-541 | the titles of the rows without row k are getReadBooks with entry k removed |
| BookStore.OwnTitlesKept | src/main/java/org/example/Storage.java:358-365 | deleting the rows whose titles are not among the rows' own titles deletes nothing |
| BookStore.OwnTitlesPresent | src/main/java/org/example/Storage.java:367-379 | inserting the rows' own titles inserts nothing |
| BookStore.UniqueTitleFiltered | src/main/java/org/example/Storage.java:358-365 | with entry k removed from the list, the DELETE pass removes exactly row k when no other row has its title |
| BookStore.RemovedTitleGone | src/main/java/org/example/MessageHandling.java:540-541 | a title held by row k alone is not in the list once entry k is removed |
| BookStore.RemoveUniqueTitle | src/main/java/org/example/MessageHandling.java:537-543 | /removebook with number k + 1 deletes exactly row k when no other row of the chat has that title |
| BookStore.RemoveSharedTitle | src/main/java/org/example/MessageHandling.java:537-543 | /removebook deletes nothing when another row of the chat has the same title, although it reports the removal |
| BookStore.Store.ReadBooks | src/main/java/org/example/Storage.java:72-94 | one title per row of the chat, in row order |
| BookStore.Store.AllValues | src/main/java/org/example/Storage.java:397-425 | one entry per row of the chat, in row order, each the row rendered as title, author and year on three lines |
| BookStore.Store.BookExists | src/main/java/org/example/Storage.java:316-342 | true exactly when some row of the chat has that title, that author and that year; a row with a NULL column never matches |
| BookStore.Store.BooksByAuthor | src/main/java/org/example/Storage.java:254-280 | a title is in the result exactly when some row of the chat has that title and that author |
| BookStore.Store.BooksByYear | src/main/java/org/example/Storage.java:285-311 | a title is in the result exactly when some row of the chat has that title and that year |
| BookStore.Store.AddReadBook | src/main/java/org/example/Storage.java:160-178 | the new row is appended to the chat's rows; no other chat changes |
| BookStore.Store.EditReadBook | src/main/java/org/example/Storage.java:208-229 | every row of the chat equal to the old triple becomes the new triple; no other chat changes |
| BookStore.Store.ClearReadBooks | src/main/java/org/example/Storage.java:234-249 | the chat's rows are emptied; no other chat changes |
| BookStore.Store.UpdateReadBooks | src/main/java/org/example/Storage.java:347-392 | rows whose title is not listed are deleted, then each listed title without a row gets a row with that title and NULL author and year, in list order; no other chat changes |
| Voting.HoldersAfterPick | src/main/java/org/example/BookVoting.java:91-94 | an accepted pick of book n adds one holder to n and none to any other book, so the counter update keeps the cache exact |
| Voting.HoldersAfterCancel | src/main/java/org/example/BookVoting.java:203-214 | dropping a ballot removes one holder from exactly the books on it |
| Voting.PointsAtPosition | src/main/java/org/example/BookVoting.java:121-124 | on a ballot without duplicates a book earns 3 minus its position, or nothing when it is absent |
| Voting.ThreePicks | src/main/java/org/example/BookVoting.java:121-124 | a full ballot gives 3, 2 and 1 points to its picks in order and 0 to every other book |
| Voting.VotedAdd | src/main/java/org/example/BookVoting.java:120-124 | counting one more ballot adds exactly the books on it to the tally's keys |
| Voting.NothingVoted | src/main/java/org/example/BookVoting.java:155-157 | the tally is empty, so that sortedVotes.get(0) fails, exactly when every ballot is empty |
| Voting.SumPointsAdd | src/main/java/org/example/BookVoting.java:120-125 | counting one more ballot adds its points to every book's running total |
| Voting.AddBallot | src/main/java/org/example/BookVoting.java:121-124 | the inner loop adds the ballot's books to the tally's keys and the ballot's points to every book's tally entry |
| Voting.SumPointsRemove | src/main/java/org/example/BookVoting.java:120 | the weighted sum does not depend on the order in which ballots are visited |
| Voting.SumPointsAgree | src/main/java/org/example/BookVoting.java:120 | the weighted sum over some chats depends on those chats' ballots only |
| Voting.ScoreAfterCancel | src/main/java/org/example/BookVoting.java:203-214 | cancelling a ballot takes exactly its points out of every book's score |
| Voting.ScoreAfterPick | src/main/java/org/example/BookVoting.java:91-92 | appending pick n adds 3 minus its position to n's score and nothing to any other book |
| Voting.InsertRanked | src/main/java/org/example/BookVoting.java:126-127 | inserting an entry after those with at least its votes, and before those with fewer, keeps the list ranked |
| Voting.InsertionPoint | src/main/java/org/example/BookVoting.java:126-127 | the insertion point splits a ranked list into the entries with at least x's votes and those with fewer |
| Voting.InsertEntry | src/main/java/org/example/BookVoting.java:126-127 | one insertion step adds x to the multiset of entries and keeps them ranked |
| Voting.EntrySet | src/main/java/org/example/BookVoting.java:126 | the tally's entries for books 1..size appear once each, in ascending book order, with their tallied votes |
| Voting.SortByVotes | src/main/java/org/example/BookVoting.java:127 | the sort is a permutation whose result is ranked by votes, descending; equal votes keep ascending book order, as a stable sort leaves them |
| Voting.BookVoting.constructor | src/main/java/org/example/BookVoting.java:38-43 | no ballots and no counters, and the invariant holds |
| Voting.BookVoting.ShowBookList | src/main/java/org/example/BookVoting.java:66-76 | the candidates numbered from 1 in catalogue order |
| Voting.BookVoting.ProcessUserVotes | src/main/java/org/example/BookVoting.java:86-109 | a first-time chat gets an empty ballot. Input that does not parse, is out of range or is already on the ballot changes nothing else and gets its reply. An accepted pick is appended and counted; the reply is "thanks" at the third pick, otherwise the number of picks left. The ballots stay duplicate-free and in range, and the counters stay equal to the holder counts |
| Voting.BookVoting.CancelUserVotes | src/main/java/org/example/BookVoting.java:203-215 | the chat's ballot is gone, each book on it loses one count unless already zero, other counters and ballots are unchanged, and the invariant holds |
| Voting.BookVoting.Tally | src/main/java/org/example/BookVoting.java:118-125 | the tally's keys are exactly the books on some ballot, and each value is that book's weighted score |
| Voting.BookVoting.GetSortedVotes | src/main/java/org/example/BookVoting.java:117-129 | each voted book appears with its weighted score, nothing else appears, and the list is ranked by score with ties in ascending book order |
| Voting.BookVoting.GetTopBook | src/main/java/org/example/BookVoting.java:154-165 | no result exactly when every ballot is empty. Otherwise a catalogue book on some ballot with the highest score, and the lowest number among books sharing that score |
| Voting.BookVoting.FinishVoting | src/main/java/org/example/BookVoting.java:137-146 | the winning candidate's catalogue entry, or nothing exactly when every ballot is empty |
| Voting.BookVoting.GetVotingStatistics | src/main/java/org/example/BookVoting.java:173-195 | every candidate once, with the number of ballots holding it, ranked by that number with ties in catalogue order |
| Router.ParseCommand | src/main/java/org/example/MessageHandling.java:235-364 | a genre name, and only a genre name, selects the advice for that genre; /vote selects the vote only when matched exactly |
| Router.CommandPrefixes | src/main/java/org/example/MessageHandling.java:251-305 | /addbook, /getbyauthor, /getbyyear and /removebook select their flow whatever follows them, while /editbook selects the edit flow only when matched exactly |
| Router.AddYearStep | src/main/java/org/example/MessageHandling.java:395-403 | the YEAR step reports a bad year exactly when the trimmed answer does not parse, and a completed step carries that parsed year |
| Router.NoLineBreakTrimmed | src/main/java/org/example/MessageHandling.java:384 | trimming a one-line answer leaves it one line |
| Router.AddFlowCompletes | src/main/java/org/example/MessageHandling.java:383-406 | one-line title and author answers, the author non-blank, followed by a numeric year, reach the add with exactly the trimmed title, the trimmed author and that year |
| Router.AddFlowBlankAuthor | src/main/java/org/example/MessageHandling.java:390-402 | a blank author loses its field to split("\n"), so the YEAR step can never add the book: every later answer fails to parse or throws |
| Router.EditReadsPickedRow | src/main/java/org/example/MessageHandling.java:605-619 | when the edit's YEAR step succeeds for a draft whose number n names a listed row, its old title, author and year are row n's title, author as read and year as read |
| Router.EditRewritesPicked | src/main/java/org/example/MessageHandling.java:621-626 | a successful YEAR step rewrites the picked row to the new title, author and year when that row is complete; on a title-only row the UPDATE matches nothing and the row stays as it was, although the step reports success |
| Router.EditFlowCompletes | src/main/java/org/example/MessageHandling.java:575-626 | a listed row number, then one-line title, author and numeric year answers, reach the edit from that row's fields as read (author "null" and year 0 when NULL) to the trimmed answers |
| Router.EditTrimmedCompletes | src/main/java/org/example/MessageHandling.java:607-621 | the same, for answers that are already trimmed |
| Router.EditAnswersRead | src/main/java/org/example/MessageHandling.java:608-616 | a draft of a row number, a title, an author and a year reaches the lookup of the numbered row |
| Router.ListedRowEdits | src/main/java/org/example/MessageHandling.java:615-619 | a listed row, split and parsed back, gives its own title, author and year as the old fields |
| Router.ListedRowSplits | src/main/java/org/example/MessageHandling.java:615-616 | a row of the rendered list splits into its title, author and rendered year |
| Router.EditFlowStuck | src/main/java/org/example/MessageHandling.java:605-613 | the year is appended before parsing, so once the draft's fourth line fails to parse, no later answer can ever complete the edit |
| Router.ActiveMode | src/main/java/org/example/MessageHandling.java:150-171 | the default handler runs exactly when no flag is up |
| Router.MessageHandling.constructor | src/main/java/org/example/MessageHandling.java:126-140 | all flags down, no vote in progress, last voting day 5, no steps or drafts, a fresh vote with no ballots |
| Router.MessageHandling.ParseMessage | src/main/java/org/example/MessageHandling.java:150-171 | exactly the handler the flags pick runs, with that handler's effect on the router, the store and the vote. The router stays consistent and chats never leave the vote |
| Router.MessageHandling.HandlePuzzleMode | src/main/java/org/example/MessageHandling.java:181-198 | the puzzle step's state and reply; store and vote untouched |
| Router.MessageHandling.AnswerPuzzle | src/main/java/org/example/MessageHandling.java:191-196 | "/stoppuzzle" lowers the puzzle flag; any other text is a move that changes no router field |
| Router.MessageHandling.HandleVoteMode | src/main/java/org/example/MessageHandling.java:208-220 | the message is one pick as ProcessUserVotes defines it, and the vote flag drops exactly when the reply is "thanks"; store untouched |
| Router.MessageHandling.HandleBookMode | src/main/java/org/example/MessageHandling.java:376-428 | the add step's state, reply and shelf write; vote untouched; router consistent |
| Router.MessageHandling.AnswerAdd | src/main/java/org/example/MessageHandling.java:380-424 | TITLE stores the trimmed answer and moves to AUTHOR. AUTHOR appends it and moves to YEAR. YEAR finishes the flow. Any other step only replies |
| Router.MessageHandling.FinishAdd | src/main/java/org/example/MessageHandling.java:395-421 | a bad year or a missing draft field keeps the flow as it was; a complete draft saves the book |
| Router.MessageHandling.SaveBook | src/main/java/org/example/MessageHandling.java:404-416 | the book is appended unless the chat already has that exact row; either way the flag drops and the chat's step and draft go |
| Router.MessageHandling.HandleGetByAuthor | src/main/java/org/example/MessageHandling.java:438-475 | the by-author step's state and reply; store and vote untouched |
| Router.MessageHandling.AnswerAuthor | src/main/java/org/example/MessageHandling.java:442-472 | the chat's titles by that author, or "none", and the flow ends. An unexpected step only drops the flag |
| Router.MessageHandling.HandleGetByYear | src/main/java/org/example/MessageHandling.java:485-520 | the by-year step's state and reply; store and vote untouched |
| Router.MessageHandling.AnswerYear | src/main/java/org/example/MessageHandling.java:489-517 | a parsed year lists the chat's titles of that year and ends the flow. A year that does not parse throws after the trimmed text was stored, and the flag stays up |
| Router.MessageHandling.HandleRemoveBook | src/main/java/org/example/MessageHandling.java:530-558 | the remove step's state, reply and shelf write; vote untouched |
| Router.MessageHandling.AnswerRemove | src/main/java/org/example/MessageHandling.java:533-555 | at the expected step the number is handled; any other step only replies |
| Router.MessageHandling.RemoveNumber | src/main/java/org/example/MessageHandling.java:536-552 | a listed number removes that entry through updateReadBooks and drops the flag. Anything else only replies. The chat's step and draft go either way |
| Router.MessageHandling.RemoveListed | src/main/java/org/example/MessageHandling.java:538-543 | the chat's rows become updateReadBooks of the list without entry n, the reply names that entry, and the flag drops |
| Router.MessageHandling.RemoveRejected | src/main/java/org/example/MessageHandling.java:544-552 | no write; the reply tells a bad number from an unlisted one; the flag stays up |
| Router.MessageHandling.HandleEditBookMode | src/main/java/org/example/MessageHandling.java:568-636 | the edit step's state, reply and shelf write; vote untouched; router consistent |
| Router.MessageHandling.AnswerEdit | src/main/java/org/example/MessageHandling.java:572-634 | the NUMBER step picks the row; the other steps extend the draft or finish |
| Router.MessageHandling.AnswerField | src/main/java/org/example/MessageHandling.java:594-633 | TITLE and AUTHOR append the answer and advance; YEAR appends it and finishes |
| Router.MessageHandling.AppendLine | src/main/java/org/example/MessageHandling.java:596-597 | the draft gains a line break and the answer, and the chat moves to the given step |
| Router.MessageHandling.PickRow | src/main/java/org/example/MessageHandling.java:575-591 | a number within the listed rows becomes the draft and the chat moves to TITLE; anything else only replies |
| Router.MessageHandling.FinishEdit | src/main/java/org/example/MessageHandling.java:605-630 | a readable draft rewrites the row. Otherwise the longer draft stays, with a bad-year reply or an escaped exception |
| Router.MessageHandling.SaveEdit | src/main/java/org/example/MessageHandling.java:621-626 | every row of the chat equal to the old triple becomes the new one, the flag drops, and the chat's step and draft go |
| Router.MessageHandling.ClosedVoting | src/main/java/org/example/MessageHandling.java:325-330 | after the last voting day: the winner while a vote is in progress (an escaped exception when every ballot is empty), otherwise "no leader" |
| Router.MessageHandling.HandleDefaultMode | src/main/java/org/example/MessageHandling.java:230-366 | the command the text names runs, with the vote commands gated by whether today is within the voting window |
| Router.MessageHandling.AnswerDefault | src/main/java/org/example/MessageHandling.java:235-364 | the vote commands behave as their own methods say; every other command as CommandStep |
| Router.MessageHandling.RunCommand | src/main/java/org/example/MessageHandling.java:235-310 | every non-vote command's state, reply and shelf write as CommandStep |
| Router.MessageHandling.LocalCommand | src/main/java/org/example/MessageHandling.java:235-310 | the commands that open no flow: fixed replies and the echo change nothing; /clearread empties the shelf; /getread lists it; /playpuzzle raises the puzzle flag |
| Router.MessageHandling.StartPuzzle | src/main/java/org/example/MessageHandling.java:307-310 | the puzzle flag goes up and nothing is written to the store |
| Router.MessageHandling.ClearShelf | src/main/java/org/example/MessageHandling.java:267-270 | the chat's rows are emptied |
| Router.MessageHandling.ListShelf | src/main/java/org/example/MessageHandling.java:273-284 | the chat's titles numbered from 1, or "empty"; nothing changes |
| Router.MessageHandling.OpenFlow | src/main/java/org/example/MessageHandling.java:251-304 | the command's flag goes up and the chat starts the flow with an empty draft, at NUMBER for /editbook and TITLE otherwise |
| Router.MessageHandling.StartVoting | src/main/java/org/example/MessageHandling.java:312-331 | within the window, a chat that has not joined a vote in progress joins it and gets the catalogue. A chat that has joined is refused. After the window, the closed-vote reply |
| Router.MessageHandling.JoinVote | src/main/java/org/example/MessageHandling.java:315-320 | the vote is in progress, the vote flag is up, the chat is among the active chats, and the reply is the numbered catalogue |
| Router.MessageHandling.Revoting | src/main/java/org/example/MessageHandling.java:333-349 | within the window, a chat that joined drops its ballot (as CancelUserVotes says) and gets the catalogue with the vote flag up. Other chats are refused. After the window, the closed-vote reply |
| Router.MessageHandling.ShowResults | src/main/java/org/example/MessageHandling.java:351-360 | within the window, the statistics as GetVotingStatistics defines them; after it, the closed-vote reply; nothing changes |
| Router.MessageHandling.SetVotingEndDay | src/main/java/org/example/MessageHandling.java:641-643 | only the last voting day changes |

## Left out

- The puzzle game is not part of this model. Every puzzle move is the opaque reply `PuzzleReply(text)`; only `/stoppuzzle`, which leaves the mode, is modelled. The hint, answer and restart commands and their case-insensitive matching are moves of the game.
- The database is not modelled; `Store` keeps each chat's rows as an ordered sequence. SQL errors, which the store only prints, are left out. So are connections and the recommended-books table.
- The SELECTs behind getReadBooks, getAllValues, getBooksByAuthor and getBooksByYear have no ORDER BY. The model assumes the database returns a chat's rows in insertion order. The numbering of rows in /removebook and /editbook depends on that order.
- The table's schema is not part of this model. The columns updateReadBooks leaves unset are taken to have no default, so they are NULL.
- Quotes (`getRandQuote`) and the reply wording are not modelled. Every reply is a constructor of `Response` that carries the data shown to the user.
- The catalogue of candidates is a constructor parameter. The book class that rotates it by date is not part of this model.
- The clock is not modelled: the day of the month is a parameter of `ParseMessage`.
- The unused `votingModes` map and the date-provider constructor of BookVoting are not modelled.
- Java `int` overflow of counters and scores is not modelled. processUserVotes does not stop a ballot at three picks. The vote flag is shared by all chats, so a chat with a full ballot can keep picking while another chat votes, and the picks-left reply then goes negative, as `Picked` models. But duplicates and numbers outside the catalogue are rejected, so each ballot holds at most one pick per catalogue book. That keeps counters and scores far from the limit for any realistic catalogue.
- `Integer.parseInt` accepts only ASCII digits here; Java also accepts other Unicode decimal digits.
- Voting.BookVoting.GetTopBook: returns no result where Java throws IndexOutOfBoundsException on an empty tally. `ClosedVoting` turns that case back into the escaped exception.
- Voting.EntrySet: the entries of the tally are taken in ascending book order. That is the order a HashMap iterates Integer keys in while every key is below its table capacity, which is at least 16. So it is exact for a catalogue of at most 15 books; the model puts no bound on the catalogue. This order fixes how the stable sort breaks ties.
- Voting.SortByVotes: the ArrayList sort in place is modelled as an insertion sort on a sequence that returns a new sequence. The ordering and permutation guarantees are stated, but not the in-place update.
- Router.MessageHandling.ParseMessage: the handlers are sequential. Concurrent messages and the shared-flag races between chats are not modelled.
- Router.MessageHandling.ParseMessage: a chat that has a step but no draft (`bookData.get` returning null) is excluded by the invariant `Consistent`. Every flow start sets both, and every flow end removes both.
- Router.MessageHandling.RemoveListed: the step and draft are removed before the store is updated. Java removes them after, but the store does not read them.
- Recommendations (`addRecBook`, `getAllRecBooks`, `recommendedBookExists`) and the Telegram transport are outside the modelled core.
