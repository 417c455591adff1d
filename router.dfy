/** The conversation router: seven global mode flags pick one handler per
    message; per-chat steps and drafts drive the multi-message book flows; the
    vote commands are gated by the day of the month. */
module Router {
  import opened Text
  import opened BookStore
  import opened Voting

  /** Where a chat is in a multi-message flow. */
  datatype Step = Title | Author | Number | Year

  /** The handler a message goes to. */
  datatype Mode = Puzzle | AddBook | ByAuthor | ByYear | RemoveBook | EditBook | Vote | Default

  /** The Java exceptions that escape parseMessage. */
  datatype Exception = NumberFormat | IndexOutOfBounds

  /** The seven mode flags, as one value. */
  datatype Flags = Flags(
    puzzleMode: bool, bookMode: bool, authorBookMode: bool, yearBookMode: bool,
    removeBookMode: bool, editBookMode: bool, voteMode: bool)

  const NoMode := Flags(false, false, false, false, false, false, false)

  /** No two flags are up at once. */
  predicate AtMostOneMode(f: Flags)
  {
    && (f.puzzleMode ==> !f.bookMode && !f.authorBookMode && !f.yearBookMode && !f.removeBookMode && !f.editBookMode && !f.voteMode)
    && (f.bookMode ==> !f.authorBookMode && !f.yearBookMode && !f.removeBookMode && !f.editBookMode && !f.voteMode)
    && (f.authorBookMode ==> !f.yearBookMode && !f.removeBookMode && !f.editBookMode && !f.voteMode)
    && (f.yearBookMode ==> !f.removeBookMode && !f.editBookMode && !f.voteMode)
    && (f.removeBookMode ==> !f.editBookMode && !f.voteMode)
    && (f.editBookMode ==> !f.voteMode)
  }

  /** What the bot answers, without the wording. */
  datatype Response =
    // commands of the default handler
    | Welcome | RandomQuote | GenreMenu | GenreAdvice(genre: string) | Echo(text: string)
    | AskTitle | AskNumberToEdit | AskAuthorQuery | AskYearQuery | AskNumberToRemove
    | ReadCleared | ReadEmpty | ReadList(lines: seq<(int, string)>)
    | PuzzleStarted
    | VoteWelcome(list: seq<(int, Book)>) | NoRepeatVote
    | RevoteList(list: seq<(int, Book)>) | RevoteBeforeVote
    | VoteStatistics(rows: seq<Entry>) | Winner(book: Book) | NoLeader
    // puzzle mode (the game itself is not modelled)
    | PuzzleReply(text: string) | PuzzleStopped
    // vote mode
    | VoteStep(reply: VoteReply) | BooksHeader
    // add flow
    | AskAuthor | AskYear | BookAdded(title: string, author: string, year: int) | AlreadyRead
    | BadYear | AddStepUnknown
    // get-by-author and get-by-year
    | AuthorList(author: string, titles: seq<string>) | NoBooksByAuthor | AuthorStepUnknown
    | YearList(year: int, titles: seq<string>) | NoBooksInYear | YearStepUnknown
    // remove and edit flows
    | BookRemoved(entry: string) | NoSuchNumber | BadNumber | RemoveStepUnknown
    | AskNewTitle | AskNewAuthor | AskNewYear | BookEdited(oldTitle: string)
    // an exception escaped the handler
    | Thrown(e: Exception)

  // ------------------------------------------------------------ commands

  datatype Command =
    | Help | Quote | Genres | Advice(genre: string)
    | AddBookCmd | EditBookCmd | ClearRead | GetRead | ByAuthorCmd | ByYearCmd | RemoveBookCmd
    | PlayPuzzle | VoteCmd | Revote | VoteResults | Other

  predicate StartsWith(s: string, prefix: string)
  {
    |prefix| <= |s| && s[..|prefix|] == prefix
  }

  const GenreNames: seq<string> := ["Научная фантастика", "Фэнтези", "Романтика", "Детектив"]

  /** Which branch of the default handler a text takes, in the handler's order:
      exact matches, except the four flow commands matched by prefix. */
  function ParseCommand(text: string): (r: Command)
    ensures r.Advice? <==> text in GenreNames
    ensures r.Advice? ==> r.genre == text
    ensures r == VoteCmd <==> text == "/vote"
  {
    if text == "/start" || text == "/help" then Help
    else if text == "/get" || text == "Просвети" then Quote
    else if text == "/genre" then Genres
    else if text in GenreNames then Advice(text)
    else if StartsWith(text, "/addbook") then AddBookCmd
    else if text == "/editbook" then EditBookCmd
    else if text == "/clearread" then ClearRead
    else if text == "/getread" then GetRead
    else if StartsWith(text, "/getbyauthor") then ByAuthorCmd
    else if StartsWith(text, "/getbyyear") then ByYearCmd
    else if StartsWith(text, "/removebook") then RemoveBookCmd
    else if text == "/playpuzzle" then PlayPuzzle
    else if text == "/vote" then VoteCmd
    else if text == "/revote" then Revote
    else if text == "/voteresults" then VoteResults
    else Other
  }

  /** A text starting with a prefix has the prefix's characters in place. */
  lemma PrefixAt(text: string, prefix: string, k: int)
    requires StartsWith(text, prefix) && 0 <= k < |prefix|
    ensures text[k] == prefix[k]
  {
    assert text[..|prefix|][k] == text[k];
  }

  /** The four flow commands match by prefix, so any text after them still
      selects them; /editbook matches only exactly, so "/editbook 3" does not. */
  lemma CommandPrefixes(text: string)
    ensures StartsWith(text, "/addbook") ==> ParseCommand(text) == AddBookCmd
    ensures StartsWith(text, "/getbyauthor") ==> ParseCommand(text) == ByAuthorCmd
    ensures StartsWith(text, "/getbyyear") ==> ParseCommand(text) == ByYearCmd
    ensures StartsWith(text, "/removebook") ==> ParseCommand(text) == RemoveBookCmd
    ensures ParseCommand(text) == EditBookCmd <==> text == "/editbook"
  {
    if StartsWith(text, "/addbook") {
      PrefixAt(text, "/addbook", 1);
    }
    if StartsWith(text, "/getbyauthor") {
      PrefixAt(text, "/getbyauthor", 1);
      PrefixAt(text, "/getbyauthor", 4);
    }
    if StartsWith(text, "/getbyyear") {
      PrefixAt(text, "/getbyyear", 1);
      PrefixAt(text, "/getbyyear", 4);
      PrefixAt(text, "/getbyyear", 6);
    }
    if StartsWith(text, "/removebook") {
      PrefixAt(text, "/removebook", 1);
    }
    if text == "/editbook" {
      assert text[1] == 'e';
    }
  }

  // ------------------------------------------------------------ the add flow's last step

  datatype AddOutcome = AddReady(title: string, author: string, year: int) | AddBadYear | AddThrows

  /** The YEAR step of the add flow on the chat's draft "title\nauthor": the year
      is parsed first (a failure is caught), then the draft is split and its
      first two fields trimmed (a missing field throws). */
  function AddYearStep(draft: string, text: string): (r: AddOutcome)
    ensures r.AddBadYear? <==> ParseInt(Trim(text)).None?
    ensures r.AddReady? ==> Some(r.year) == ParseInt(Trim(text))
  {
    match ParseInt(Trim(text))
    case None => AddBadYear
    case Some(year) =>
      var parts := SplitLines(draft);
      if |parts| < 2 then AddThrows
      else AddReady(Trim(parts[0]), Trim(parts[1]), year)
  }

  lemma NoLineBreakTrimmed(s: string)
    requires NL !in s
    ensures NL !in Trim(s)
  {
    var t := TrimStart(s);
    TrimStartShape(s);
    TrimEndShape(t);
    assert t == s[|s| - |t|..];
    assert NL !in t;
    assert Trim(s) == t[..|Trim(s)|];
  }

  /** Title, author and year each sent as one line, with a non-blank author and a
      numeric year, add exactly that book. */
  lemma AddFlowCompletes(title: string, author: string, text: string, year: int)
    requires NL !in title && NL !in author && Trim(author) != []
    requires ParseInt(Trim(text)) == Some(year)
    ensures AddYearStep(Trim(title) + [NL] + Trim(author), text) == AddReady(Trim(title), Trim(author), year)
  {
    var t, a := Trim(title), Trim(author);
    assert SplitLines(t + [NL] + a) == [t, a] by {
      NoLineBreakTrimmed(title);
      NoLineBreakTrimmed(author);
      SplitTwo(t, a);
    }
    assert Trim(t) == t by { TrimIdempotent(title); }
    assert Trim(a) == a by { TrimIdempotent(author); }
  }

  /** An author that is blank after trimming loses its field to split("\n"), so
      the YEAR step can never add the book: every year either fails to parse or
      throws, and neither changes the draft. */
  lemma AddFlowBlankAuthor(title: string, author: string, text: string)
    requires NL !in title && Trim(author) == []
    ensures !AddYearStep(Trim(title) + [NL] + Trim(author), text).AddReady?
  {
    var t := Trim(title);
    assert t + [NL] + Trim(author) == t + [NL];
    assert |SplitLines(t + [NL])| <= 1 by {
      NoLineBreakTrimmed(title);
      SplitTrailingBreak(t);
    }
  }

  // ------------------------------------------------------------ the edit flow's last step

  datatype EditOutcome =
    | Edited(oldTitle: string, oldAuthor: string, oldYear: int, newTitle: string, newAuthor: string, newYear: int)
    | EditBadNumber
    | EditThrows

  /** The YEAR step of the edit flow on the draft "number\ntitle\nauthor\nyear"
      (the year already appended) and the chat's rendered shelf: number and new
      year are parsed, the old row is looked up and split; a failed parse is
      caught, a missing field or row throws. */
  function EditYearStep(draft: string, rows: seq<string>): EditOutcome
  {
    EditParts(SplitLines(draft), rows)
  }

  /** EditYearStep once the draft is split into its lines. */
  function EditParts(parts: seq<string>, rows: seq<string>): EditOutcome
  {
    if |parts| == 0 then EditThrows
    else match ParseInt(parts[0])
    case None => EditBadNumber
    case Some(number) =>
      if |parts| < 4 then EditThrows
      else match ParseInt(parts[3])
      case None => EditBadNumber
      case Some(newYear) =>
        if !(1 <= number <= |rows|) then EditThrows
        else EditRow(SplitLines(rows[number - 1]), parts[1], parts[2], newYear)
  }

  /** The last part of EditYearStep: the chosen row, split into its lines, gives the old fields. */
  function EditRow(previous: seq<string>, title: string, author: string, newYear: int): EditOutcome
  {
    if |previous| < 3 then EditThrows
    else match ParseInt(previous[2])
    case None => EditBadNumber
    case Some(oldYear) => Edited(previous[0], previous[1], oldYear, title, author, newYear)
  }

  /** Whatever the draft, a YEAR step that edits reads its old fields from the
      row the draft's first line picked: that row's title, and its author and
      year as getAllValues shows them. */
  lemma EditReadsPickedRow(shelf: seq<Record>, draft: string, n: int)
    requires |SplitLines(draft)| >= 1 && ParseInt(SplitLines(draft)[0]) == Some(n) && ListedRow(shelf, n)
    requires EditYearStep(draft, Rendered(shelf)).Edited?
    ensures var e := EditYearStep(draft, Rendered(shelf));
      e.oldTitle == shelf[n - 1].title && e.oldAuthor == AuthorText(shelf[n - 1]) && e.oldYear == YearValue(shelf[n - 1])
  {
    var parts := SplitLines(draft);
    var e := EditYearStep(draft, Rendered(shelf));
    assert |parts| >= 4 && ParseInt(parts[3]) == Some(e.newYear);
    EditPartsRead(parts, Rendered(shelf), n, e.newYear);
    ListedRowEdits(shelf, n, parts[1], parts[2], e.newYear);
  }

  /** The UPDATE of a successful edit rewrites the picked row when its author and
      year are set. A row whose author is NULL (one updateReadBooks inserted) is
      read as "null" and matches no UPDATE, so it stays as it was. */
  lemma EditRewritesPicked(shelf: seq<Record>, draft: string, n: int)
    requires |SplitLines(draft)| >= 1 && ParseInt(SplitLines(draft)[0]) == Some(n) && ListedRow(shelf, n)
    requires EditYearStep(draft, Rendered(shelf)).Edited?
    ensures var e := EditYearStep(draft, Rendered(shelf));
      var after := Replace(shelf, Complete(e.oldTitle, e.oldAuthor, e.oldYear), Complete(e.newTitle, e.newAuthor, e.newYear));
      && (shelf[n - 1].author.Some? && shelf[n - 1].year.Some? ==> after[n - 1] == Complete(e.newTitle, e.newAuthor, e.newYear))
      && (shelf[n - 1].author.None? ==> after[n - 1] == shelf[n - 1])
  {
    var e := EditYearStep(draft, Rendered(shelf));
    EditReadsPickedRow(shelf, draft, n);
    ReplaceAt(shelf, Complete(e.oldTitle, e.oldAuthor, e.oldYear), Complete(e.newTitle, e.newAuthor, e.newYear));
  }

  /** Four one-line answers (a valid row number, a title, an author, a numeric
      year) rewrite exactly that row of the shelf. */
  lemma EditFlowCompletes(shelf: seq<Record>, m0: string, m1: string, m2: string, m3: string, n: int, year: int)
    requires NL !in m0 && NL !in m1 && NL !in m2 && NL !in m3
    requires ParseInt(Trim(m0)) == Some(n) && 1 <= n <= |shelf|
    requires ParseInt(Trim(m3)) == Some(year)
    requires NL !in shelf[n - 1].title && NL !in AuthorText(shelf[n - 1]) && IsInt32(YearValue(shelf[n - 1]))
    ensures EditYearStep(Trim(m0) + [NL] + Trim(m1) + [NL] + Trim(m2) + [NL] + Trim(m3), Rendered(shelf))
         == Edited(shelf[n - 1].title, AuthorText(shelf[n - 1]), YearValue(shelf[n - 1]), Trim(m1), Trim(m2), year)
  {
    NoLineBreakTrimmed(m0);
    NoLineBreakTrimmed(m1);
    NoLineBreakTrimmed(m2);
    NoLineBreakTrimmed(m3);
    assert EditAnswers(Trim(m0), Trim(m1), Trim(m2), Trim(m3), n, year);
    assert ListedRow(shelf, n);
    EditTrimmedCompletes(shelf, Trim(m0), Trim(m1), Trim(m2), Trim(m3), n, year);
  }

  /** Four one-line answers: a row number `n`, a title, an author and a year. */
  predicate EditAnswers(a0: string, a1: string, a2: string, a3: string, n: int, year: int)
  {
    && NL !in a0 && NL !in a1 && NL !in a2 && NL !in a3
    && ParseInt(a0) == Some(n) && ParseInt(a3) == Some(year)
  }

  /** Row `n` (counting from 1) of the shelf exists and renders as three lines. */
  predicate ListedRow(shelf: seq<Record>, n: int)
  {
    1 <= n <= |shelf| && NL !in shelf[n - 1].title && NL !in AuthorText(shelf[n - 1]) && IsInt32(YearValue(shelf[n - 1]))
  }

  /** EditFlowCompletes once the answers are trimmed. */
  lemma EditTrimmedCompletes(shelf: seq<Record>, a0: string, a1: string, a2: string, a3: string, n: int, year: int)
    requires EditAnswers(a0, a1, a2, a3, n, year) && ListedRow(shelf, n)
    ensures EditYearStep(a0 + [NL] + a1 + [NL] + a2 + [NL] + a3, Rendered(shelf))
         == Edited(shelf[n - 1].title, AuthorText(shelf[n - 1]), YearValue(shelf[n - 1]), a1, a2, year)
  {
    ListedRowEdits(shelf, n, a1, a2, year);
    EditAnswersRead(Rendered(shelf), a0, a1, a2, a3, n, year);
  }

  /** Four one-line answers, the first a row number and the last a year, bring
      the YEAR step to the chosen row. */
  lemma EditAnswersRead(rows: seq<string>, a0: string, a1: string, a2: string, a3: string, n: int, year: int)
    requires EditAnswers(a0, a1, a2, a3, n, year) && 1 <= n <= |rows|
    ensures EditYearStep(a0 + [NL] + a1 + [NL] + a2 + [NL] + a3, rows)
         == EditRow(SplitLines(rows[n - 1]), a1, a2, year)
  {
    SplitFour(a0, a1, a2, a3);
    EditPartsRead([a0, a1, a2, a3], rows, n, year);
  }

  /** A listed row, chosen for editing, gives back its own title, author and year. */
  lemma ListedRowEdits(shelf: seq<Record>, n: int, title: string, author: string, year: int)
    requires ListedRow(shelf, n)
    ensures |Rendered(shelf)| == |shelf|
    ensures EditRow(SplitLines(Rendered(shelf)[n - 1]), title, author, year)
         == Edited(shelf[n - 1].title, AuthorText(shelf[n - 1]), YearValue(shelf[n - 1]), title, author, year)
  {
    var row := shelf[n - 1];
    ListedRowSplits(shelf, n - 1);
    ParseShow(YearValue(row));
    EditRowRead(SplitLines(Rendered(shelf)[n - 1]), title, author, year, YearValue(row));
  }

  /** Number and new year parse and the number names a row: the old row is read. */
  lemma EditPartsRead(parts: seq<string>, rows: seq<string>, n: int, year: int)
    requires |parts| >= 4 && ParseInt(parts[0]) == Some(n) && ParseInt(parts[3]) == Some(year)
    requires 1 <= n <= |rows|
    ensures EditParts(parts, rows) == EditRow(SplitLines(rows[n - 1]), parts[1], parts[2], year)
  {
  }

  /** An old row of three lines whose year parses gives the edit. */
  lemma EditRowRead(previous: seq<string>, title: string, author: string, year: int, was: int)
    requires |previous| >= 3 && ParseInt(previous[2]) == Some(was)
    ensures EditRow(previous, title, author, year) == Edited(previous[0], previous[1], was, title, author, year)
  {
  }

  /** A row of the rendered shelf splits into its title, author and year. */
  lemma ListedRowSplits(shelf: seq<Record>, i: int)
    requires 0 <= i < |shelf| && NL !in shelf[i].title && NL !in AuthorText(shelf[i])
    ensures SplitLines(Rendered(shelf)[i]) == [shelf[i].title, AuthorText(shelf[i]), ShowInt(YearValue(shelf[i]))]
  {
    RenderSplits(shelf[i]);
  }

  /** The edit flow appends the year to the draft before parsing it. Once the
      fourth field of the draft fails to parse, every later answer is appended
      after it and the flow can never complete. */
  lemma EditFlowStuck(draft: string, rows: seq<string>, later: string)
    requires NL in draft && 4 <= |SplitLines(draft)|
    requires ParseInt(SplitLines(draft)[3]).None?
    ensures !EditYearStep(draft + [NL] + later, rows).Edited?
  {
    SplitKeepsPrefix(draft, later, 4);
    var after := SplitLines(draft + [NL] + later);
    assert after[3] == after[..4][3];
  }

  // ------------------------------------------------------------ the router's state as a value

  /** The router's own fields as one value: the seven flags, the vote gate
      (whether a vote has started, its last day, the chats that joined it) and
      the per-chat flow steps and drafts. */
  datatype RouterState = RouterState(flags: Flags, inProgress: bool, endDay: int, activeChats: set<int>,
                                     steps: map<int, Step>, drafts: map<int, string>)
  {
    /** bookInputSteps.getOrDefault. */
    function StepOr(chat: int, fallback: Step): Step
    {
      if chat in steps then steps[chat] else fallback
    }

    /** The chat's draft; a chat with a step always has one (see Consistent). */
    function Draft(chat: int): string
    {
      if chat in drafts then drafts[chat] else []
    }

    /** The chat's flow is over: its step and draft are removed, the flags become f. */
    function Clear(chat: int, f: Flags): RouterState
    {
      this.(flags := f, steps := steps - {chat}, drafts := drafts - {chat})
    }

    /** The chat moves to the given step with the given draft. */
    function Advance(chat: int, step: Step, draft: string): RouterState
    {
      this.(steps := steps[chat := step], drafts := drafts[chat := draft])
    }

    /** A flow command: the flag goes up and the chat starts at the given step
        with an empty draft. */
    function Begin(f: Flags, chat: int, step: Step): RouterState
    {
      this.(flags := f).Advance(chat, step, [])
    }
  }

  /** At most one flag is up (flags are only raised from the default handler,
      which runs only when none is); every chat with a step has a draft; the
      voting flag records whether any chat has started voting. */
  ghost predicate Consistent(s: RouterState)
  {
    && AtMostOneMode(s.flags)
    && (forall c :: c in s.steps ==> c in s.drafts)
    && (s.inProgress <==> s.activeChats != {})
  }

  /** The handler parseMessage picks, by the flags' priority
      puzzle > add > author > year > remove > edit > vote > default. */
  function ActiveMode(f: Flags): (m: Mode)
    ensures m == Default <==> f == NoMode
  {
    if f.puzzleMode then Puzzle
    else if f.bookMode then AddBook
    else if f.authorBookMode then ByAuthor
    else if f.yearBookMode then ByYear
    else if f.removeBookMode then RemoveBook
    else if f.editBookMode then EditBook
    else if f.voteMode then Vote
    else Default
  }

  /** What one message did: the router's next state, the chat's new shelf when
      the handler wrote to the store, and the reply. */
  datatype Handled = Handled(state: RouterState, shelf: Option<seq<Record>>, response: Response)

  // ------------------------------------------------------------ the handlers as functions

  /** handlePuzzleMode: "/stoppuzzle" leaves the game, anything else is a move. */
  function PuzzleStep(s: RouterState, text: string): Handled
  {
    if text == "/stoppuzzle" then Handled(s.(flags := s.flags.(puzzleMode := false)), None, PuzzleStopped)
    else Handled(s, None, PuzzleReply(text))
  }

  /** handleBookMode, given the trimmed answer and what the YEAR step would read:
      TITLE starts the draft, AUTHOR extends it, YEAR finishes the flow. */
  function AddStep(s: RouterState, shelf: seq<Record>, chat: int, answer: string, outcome: AddOutcome): Handled
  {
    match s.StepOr(chat, Title)
    case Title => Handled(s.Advance(chat, Author, answer), None, AskAuthor)
    case Author => Handled(s.Advance(chat, Year, s.Draft(chat) + [NL] + answer), None, AskYear)
    case Year => AddFinish(s, shelf, chat, outcome)
    case Number => Handled(s, None, AddStepUnknown)
  }

  /** The YEAR step of the add flow: the book is added unless it is already on
      the shelf; a year that fails to parse is caught and a draft lacking a field
      throws, both keeping the flow where it was. */
  function AddFinish(s: RouterState, shelf: seq<Record>, chat: int, outcome: AddOutcome): Handled
  {
    match outcome
    case AddBadYear => Handled(s, None, BadYear)
    case AddThrows => Handled(s, None, Thrown(IndexOutOfBounds))
    case AddReady(title, author, year) =>
      var done := s.Clear(chat, s.flags.(bookMode := false));
      if Complete(title, author, year) in shelf then Handled(done, None, AlreadyRead)
      else Handled(done, Some(shelf + [Complete(title, author, year)]), BookAdded(title, author, year))
  }

  function AddMessage(s: RouterState, shelf: seq<Record>, chat: int, text: string): Handled
  {
    AddStep(s, shelf, chat, Trim(text), AddYearStep(s.Draft(chat), text))
  }

  /** handleGetByAuthor: one answer lists the author's titles and ends the flow. */
  function AuthorStep(s: RouterState, shelf: seq<Record>, chat: int, author: string): Handled
  {
    var f := s.flags.(authorBookMode := false);
    if s.StepOr(chat, Title) == Title then
      var titles := TitlesByAuthor(shelf, author);
      Handled(s.Clear(chat, f), None, if titles == [] then NoBooksByAuthor else AuthorList(author, titles))
    else
      Handled(s.(flags := f), None, AuthorStepUnknown)
  }

  function AuthorMessage(s: RouterState, shelf: seq<Record>, chat: int, text: string): Handled
  {
    AuthorStep(s, shelf, chat, Trim(text))
  }

  /** handleGetByYear: the trimmed answer is stored before it is parsed, so a
      year that does not parse throws and leaves the flow where it was. */
  function YearStep(s: RouterState, shelf: seq<Record>, chat: int, query: string, year: Option<int>): Handled
  {
    if s.StepOr(chat, Title) == Title then
      match year
      case None => Handled(s.(drafts := s.drafts[chat := query]), None, Thrown(NumberFormat))
      case Some(y) =>
        var titles := TitlesByYear(shelf, y);
        Handled(s.Clear(chat, s.flags.(yearBookMode := false)), None,
                if titles == [] then NoBooksInYear else YearList(y, titles))
    else
      Handled(s, None, YearStepUnknown)
  }

  function YearMessage(s: RouterState, shelf: seq<Record>, chat: int, text: string): Handled
  {
    YearStep(s, shelf, chat, Trim(text), ParseInt(Trim(text)))
  }

  /** handleRemoveBook: the chat's flow entries go whatever the answer. */
  function RemoveStep(s: RouterState, shelf: seq<Record>, chat: int, number: Option<int>): Handled
  {
    if s.StepOr(chat, Title) == Title then RemovePick(s, shelf, chat, number)
    else Handled(s, None, RemoveStepUnknown)
  }

  /** The answer of the remove flow: a listed number removes that title and drops
      the flag; any other answer leaves the flag up. */
  function RemovePick(s: RouterState, shelf: seq<Record>, chat: int, number: Option<int>): Handled
  {
    var listed := Titles(shelf);
    if number.Some? && 1 <= number.value <= |listed| then
      Handled(s.Clear(chat, s.flags.(removeBookMode := false)),
              Some(UpdatedShelf(shelf, RemoveAt(listed, number.value - 1))), BookRemoved(listed[number.value - 1]))
    else
      Handled(s.Clear(chat, s.flags), None, if number.None? then BadNumber else NoSuchNumber)
  }

  function RemoveMessage(s: RouterState, shelf: seq<Record>, chat: int, text: string): Handled
  {
    RemoveStep(s, shelf, chat, ParseInt(Trim(text)))
  }

  /** handleEditBookMode, given the trimmed answer, its parse and what the YEAR
      step would read: NUMBER keeps a listed number as the draft, TITLE and
      AUTHOR append, YEAR appends and then rewrites the row or fails. */
  function EditStep(s: RouterState, shelf: seq<Record>, chat: int, answer: string,
                    number: Option<int>, outcome: EditOutcome): Handled
  {
    if s.StepOr(chat, Number) == Number then EditPick(s, shelf, chat, answer, number)
    else EditField(s, shelf, chat, answer, outcome)
  }

  /** The TITLE, AUTHOR and YEAR steps of the edit flow: each appends the answer
      to the draft; YEAR then rewrites the row or fails. */
  function EditField(s: RouterState, shelf: seq<Record>, chat: int, answer: string, outcome: EditOutcome): Handled
    requires s.StepOr(chat, Number) != Number
  {
    var draft := s.Draft(chat) + [NL] + answer;
    match s.StepOr(chat, Number)
    case Title => Handled(s.Advance(chat, Author, draft), None, AskNewAuthor)
    case Author => Handled(s.Advance(chat, Year, draft), None, AskNewYear)
    case Year => EditFinish(s, shelf, chat, draft, outcome)
  }

  /** The NUMBER step of the edit flow: a listed row number becomes the draft. */
  function EditPick(s: RouterState, shelf: seq<Record>, chat: int, answer: string, number: Option<int>): Handled
  {
    if number.Some? && 1 <= number.value <= |Rendered(shelf)| then
      Handled(s.Advance(chat, Title, answer), None, AskNewTitle)
    else
      Handled(s, None, if number.None? then BadNumber else NoSuchNumber)
  }

  /** The YEAR step of the edit flow, given the draft with the year appended:
      the row is rewritten and the flow ends (the longer draft is stored and
      then removed), or the longer draft stays. */
  function EditFinish(s: RouterState, shelf: seq<Record>, chat: int, draft: string, outcome: EditOutcome): Handled
  {
    match outcome
    case EditBadNumber => Handled(s.(drafts := s.drafts[chat := draft]), None, BadYear)
    case EditThrows => Handled(s.(drafts := s.drafts[chat := draft]), None, Thrown(IndexOutOfBounds))
    case Edited(oldTitle, oldAuthor, oldYear, newTitle, newAuthor, newYear) =>
      Handled(s.Clear(chat, s.flags.(editBookMode := false)),
              Some(Replace(shelf, Complete(oldTitle, oldAuthor, oldYear), Complete(newTitle, newAuthor, newYear))),
              BookEdited(oldTitle))
  }

  function EditMessage(s: RouterState, shelf: seq<Record>, chat: int, text: string): Handled
  {
    var answer := Trim(text);
    EditStep(s, shelf, chat, answer, ParseInt(answer),
             EditYearStep(s.Draft(chat) + [NL] + answer, Rendered(shelf)))
  }

  /** The modes whose handler is a function of the router, the chat's shelf and the text. */
  predicate IsBookFlow(m: Mode)
  {
    m != Vote && m != Default
  }

  /** parseMessage while one of the first six flags is up. */
  function Route(s: RouterState, shelf: seq<Record>, chat: int, text: string): Handled
    requires IsBookFlow(ActiveMode(s.flags))
  {
    match ActiveMode(s.flags)
    case Puzzle => PuzzleStep(s, text)
    case AddBook => AddMessage(s, shelf, chat, text)
    case ByAuthor => AuthorMessage(s, shelf, chat, text)
    case ByYear => YearMessage(s, shelf, chat, text)
    case RemoveBook => RemoveMessage(s, shelf, chat, text)
    case EditBook => EditMessage(s, shelf, chat, text)
  }

  predicate IsVoteCommand(c: Command)
  {
    c.VoteCmd? || c.Revote? || c.VoteResults?
  }

  /** handleDefaultMode for every command but the three vote commands, whose
      replies come from the vote (see MessageHandling.DefaultAnswered). */
  function CommandStep(s: RouterState, shelf: seq<Record>, chat: int, text: string, command: Command): Handled
    requires !IsVoteCommand(command)
  {
    match command
    case AddBookCmd | EditBookCmd | ByAuthorCmd | ByYearCmd | RemoveBookCmd => FlowStart(s, chat, command)
    case Help | Quote | Genres | Advice(_) | Other => Handled(s, None, Reply(text, command))
    case PlayPuzzle => Handled(s.(flags := s.flags.(puzzleMode := true)), None, PuzzleStarted)
    case ClearRead => Handled(s, Some([]), ReadCleared)
    case GetRead =>
      var listed := Titles(shelf);
      Handled(s, None, if listed == [] then ReadEmpty else ReadList(Numbered(listed)))
  }

  /** The commands answered by a fixed reply (or the text echoed), changing nothing. */
  predicate IsReplyCommand(c: Command)
  {
    c.Help? || c.Quote? || c.Genres? || c.Advice? || c.Other?
  }

  function Reply(text: string, command: Command): Response
    requires IsReplyCommand(command)
  {
    match command
    case Help => Welcome
    case Quote => RandomQuote
    case Genres => GenreMenu
    case Advice(genre) => GenreAdvice(genre)
    case Other => Echo(text)
  }

  predicate IsFlowCommand(c: Command)
  {
    c.AddBookCmd? || c.EditBookCmd? || c.ByAuthorCmd? || c.ByYearCmd? || c.RemoveBookCmd?
  }

  /** The five commands that open a multi-message flow: the flow's flag goes up
      and the chat starts at the flow's first step with an empty draft. */
  function FlowStart(s: RouterState, chat: int, command: Command): Handled
    requires IsFlowCommand(command)
  {
    match command
    case AddBookCmd => Handled(s.Begin(s.flags.(bookMode := true), chat, Title), None, AskTitle)
    case EditBookCmd => Handled(s.Begin(s.flags.(editBookMode := true), chat, Number), None, AskNumberToEdit)
    case ByAuthorCmd => Handled(s.Begin(s.flags.(authorBookMode := true), chat, Title), None, AskAuthorQuery)
    case ByYearCmd => Handled(s.Begin(s.flags.(yearBookMode := true), chat, Title), None, AskYearQuery)
    case RemoveBookCmd => Handled(s.Begin(s.flags.(removeBookMode := true), chat, Title), None, AskNumberToRemove)
  }

  /** All shelves after a handler: the chat's shelf replaced when the handler wrote it. */
  function WithShelf(shelves: map<int, seq<Record>>, chat: int, shelf: Option<seq<Record>>): map<int, seq<Record>>
  {
    match shelf
    case None => shelves
    case Some(rows) => shelves[chat := rows]
  }

  // ------------------------------------------------------------ the router

  class MessageHandling {
    const store: Store
    const voting: BookVoting

    var votingInProgress: bool
    var votingEndDay: int
    var activeVotingChats: set<int>

    var puzzleMode: bool
    var bookMode: bool
    var authorBookMode: bool
    var yearBookMode: bool
    var removeBookMode: bool
    var editBookMode: bool
    var voteMode: bool

    var bookInputSteps: map<int, Step>
    var bookData: map<int, string>

    function CurrentFlags(): Flags
      reads this
    {
      Flags(puzzleMode, bookMode, authorBookMode, yearBookMode, removeBookMode, editBookMode, voteMode)
    }

    function Snapshot(): RouterState
      reads this
    {
      RouterState(CurrentFlags(), votingInProgress, votingEndDay, activeVotingChats, bookInputSteps, bookData)
    }

    ghost predicate Ready()
      reads this
    {
      Consistent(Snapshot())
    }

    ghost predicate Valid()
      reads this, voting
    {
      Ready() && voting.Valid()
    }

    /** The chat's step and draft come and go together. */
    predicate HasDraft(chat: int)
      reads this
    {
      chat in bookInputSteps ==> chat in bookData
    }

    constructor (catalog: seq<Book>, books: Store)
      ensures Valid()
      ensures store == books && fresh(voting) && voting.books == catalog
      ensures voting.userVotes == map[] && voting.bookVotesCount == map[]
      ensures Snapshot() == RouterState(NoMode, false, 5, {}, map[], map[])
    {
      store := books;
      voting := new BookVoting(catalog);
      votingInProgress := false;
      votingEndDay := 5;
      activeVotingChats := {};
      puzzleMode, bookMode, authorBookMode, yearBookMode := false, false, false, false;
      removeBookMode, editBookMode, voteMode := false, false, false;
      bookInputSteps := map[];
      bookData := map[];
    }

    // ---------------------------------------------------------- what a handler did

    /** Only the flags, as given, changed in the router. */
    twostate predicate Kept(new f: Flags)
      reads this
    {
      Snapshot() == old(Snapshot()).(flags := f)
    }

    /** Only the flags, as given, changed anywhere. */
    twostate predicate OnlyFlags(new f: Flags)
      reads this, store, voting
    {
      Kept(f) && unchanged(store, voting)
    }

    /** handleVoteMode: the message is one pick; the flag drops after the third. */
    twostate predicate VoteDone(new text: string, chat: int, new response: Response)
      reads this, store, voting
    {
      if old(voteMode) then
        && response.VoteStep? && voting.Picked(text, chat, response.reply)
        && Kept(old(CurrentFlags()).(voteMode := response.reply != Thanks)) && unchanged(store)
      else
        response == BooksHeader && OnlyFlags(old(CurrentFlags()))
    }

    /** After the last voting day: the winner while a vote is on (Java throws on
        an empty tally), otherwise "no leader". */
    ghost predicate ClosedReply(response: Response)
      reads this, voting
    {
      if votingInProgress then
        || (response == Thrown(IndexOutOfBounds) && forall c :: c in voting.userVotes ==> voting.userVotes[c] == [])
        || (response.Winner? && voting.FinishReply(Some(response.book)))
      else
        response == NoLeader
    }

    /** /vote: a chat joins the vote once; the global vote flag goes up. */
    twostate predicate VoteCommandDone(chat: int, open: bool, new response: Response)
      reads this, store, voting
    {
      var f := old(CurrentFlags());
      if !open then ClosedReply(response) && OnlyFlags(f)
      else if !old(votingInProgress) || chat !in old(activeVotingChats) then
        && response == VoteWelcome(Numbered(voting.books))
        && Snapshot() == old(Snapshot()).(flags := f.(voteMode := true), inProgress := true,
                                          activeChats := old(activeVotingChats) + {chat})
        && unchanged(store, voting)
      else
        response == NoRepeatVote && OnlyFlags(f)
    }

    /** /revote: a chat that has joined drops its ballot and votes again. */
    twostate predicate RevoteDone(chat: int, open: bool, new response: Response)
      reads this, store, voting
    {
      var f := old(CurrentFlags());
      if !open then ClosedReply(response) && OnlyFlags(f)
      else if chat in old(activeVotingChats) then
        && response == RevoteList(Numbered(voting.books)) && voting.Cancelled(chat)
        && Kept(f.(voteMode := true)) && unchanged(store)
      else
        response == RevoteBeforeVote && OnlyFlags(f)
    }

    /** /voteresults: the ranked statistics while the vote is open. */
    twostate predicate ResultsDone(open: bool, new response: Response)
      reads this, store, voting
    {
      && OnlyFlags(old(CurrentFlags()))
      && if open then response.VoteStatistics? && voting.Statistics(response.rows) else ClosedReply(response)
    }

    /** handleDefaultMode, given the command the text names and whether the day
        is within the voting window (up to and including its last day). */
    twostate predicate DefaultAnswered(new text: string, chat: int, new command: Command, open: bool, new response: Response)
      reads this, store, voting
    {
      if command == VoteCmd then VoteCommandDone(chat, open, response)
      else if command == Revote then RevoteDone(chat, open, response)
      else if command == VoteResults then ResultsDone(open, response)
      else
        var r := CommandStep(old(Snapshot()), old(store.Shelf(chat)), chat, text, command);
        && Snapshot() == r.state && response == r.response && unchanged(voting)
        && store.shelves == WithShelf(old(store.shelves), chat, r.shelf)
    }

    // ---------------------------------------------------------- dispatch

    /** parseMessage: exactly one handler runs, the one the flags pick. */
    method ParseMessage(text: string, chat: int, day: int) returns (response: Response)
      requires Valid()
      modifies this, store, voting
      ensures Valid()
      ensures old(activeVotingChats) <= activeVotingChats
      ensures IsBookFlow(ActiveMode(old(CurrentFlags()))) ==>
        var r := Route(old(Snapshot()), old(store.Shelf(chat)), chat, text);
        && Snapshot() == r.state && response == r.response && unchanged(voting)
        && store.shelves == WithShelf(old(store.shelves), chat, r.shelf)
      ensures ActiveMode(old(CurrentFlags())) == Vote ==> VoteDone(text, chat, response)
      ensures ActiveMode(old(CurrentFlags())) == Default ==>
        DefaultAnswered(text, chat, ParseCommand(text), day <= old(votingEndDay), response)
    {
      if puzzleMode {
        response := HandlePuzzleMode(text, chat);
      } else if bookMode {
        response := HandleBookMode(text, chat);
      } else if authorBookMode {
        response := HandleGetByAuthor(text, chat);
      } else if yearBookMode {
        response := HandleGetByYear(text, chat);
      } else if removeBookMode {
        response := HandleRemoveBook(text, chat);
      } else if editBookMode {
        response := HandleEditBookMode(text, chat);
      } else if voteMode {
        response := HandleVoteMode(text, chat);
      } else {
        response := HandleDefaultMode(text, chat, day);
      }
    }

    // ---------------------------------------------------------- handlers

    method HandlePuzzleMode(text: string, chat: int) returns (response: Response)
      requires Valid() && ActiveMode(CurrentFlags()) == Puzzle
      modifies this
      ensures Valid() && old(activeVotingChats) <= activeVotingChats
      ensures var r := Route(old(Snapshot()), old(store.Shelf(chat)), chat, text);
        && Snapshot() == r.state && response == r.response && unchanged(voting)
        && store.shelves == WithShelf(old(store.shelves), chat, r.shelf)
    {
      response := AnswerPuzzle(text);
      PuzzleKeeps(old(Snapshot()), text);
    }

    method AnswerPuzzle(text: string) returns (response: Response)
      modifies this
      ensures Snapshot() == PuzzleStep(old(Snapshot()), text).state
      ensures response == PuzzleStep(old(Snapshot()), text).response
    {
      if text == "/stoppuzzle" {
        puzzleMode := false;
        response := PuzzleStopped;
      } else {
        response := PuzzleReply(text);
      }
    }

    method HandleVoteMode(text: string, chat: int) returns (response: Response)
      requires Valid() && voteMode
      modifies this, voting
      ensures Valid()
      ensures VoteDone(text, chat, response)
      ensures old(activeVotingChats) <= activeVotingChats
    {
      if voteMode {
        var reply := voting.ProcessUserVotes(text, chat);
        if reply == Thanks {
          voteMode := false;
        }
        response := VoteStep(reply);
      } else {
        response := BooksHeader;
      }
    }

    method HandleBookMode(text: string, chat: int) returns (response: Response)
      requires Valid() && ActiveMode(CurrentFlags()) == AddBook
      modifies this, store
      ensures Valid() && old(activeVotingChats) <= activeVotingChats
      ensures var r := Route(old(Snapshot()), old(store.Shelf(chat)), chat, text);
        && Snapshot() == r.state && response == r.response && unchanged(voting)
        && store.shelves == WithShelf(old(store.shelves), chat, r.shelf)
    {
      response := AnswerAdd(chat, Trim(text), AddYearStep(Snapshot().Draft(chat), text));
      AddKeeps(old(Snapshot()), old(store.Shelf(chat)), chat, Trim(text), AddYearStep(old(Snapshot()).Draft(chat), text));
    }

    method AnswerAdd(chat: int, answer: string, outcome: AddOutcome) returns (response: Response)
      requires HasDraft(chat)
      modifies this, store
      ensures Snapshot() == AddStep(old(Snapshot()), old(store.Shelf(chat)), chat, answer, outcome).state
      ensures response == AddStep(old(Snapshot()), old(store.Shelf(chat)), chat, answer, outcome).response
      ensures store.shelves == WithShelf(old(store.shelves), chat, AddStep(old(Snapshot()), old(store.Shelf(chat)), chat, answer, outcome).shelf)
    {
      var step := Snapshot().StepOr(chat, Title);
      if step == Title {
        bookData := bookData[chat := answer];
        bookInputSteps := bookInputSteps[chat := Author];
        response := AskAuthor;
      } else if step == Author {
        AppendLine(chat, answer, Year);
        response := AskYear;
      } else if step == Year {
        response := FinishAdd(chat, outcome);
      } else {
        response := AddStepUnknown;
      }
    }

    method FinishAdd(chat: int, outcome: AddOutcome) returns (response: Response)
      modifies this, store
      ensures Snapshot() == AddFinish(old(Snapshot()), old(store.Shelf(chat)), chat, outcome).state
      ensures response == AddFinish(old(Snapshot()), old(store.Shelf(chat)), chat, outcome).response
      ensures store.shelves == WithShelf(old(store.shelves), chat, AddFinish(old(Snapshot()), old(store.Shelf(chat)), chat, outcome).shelf)
    {
      match outcome
      case AddBadYear =>
        response := BadYear;
      case AddThrows =>
        response := Thrown(IndexOutOfBounds);
      case AddReady(title, author, year) =>
        response := SaveBook(chat, title, author, year);
    }

    /** The add flow's last step once the draft reads: the book is stored unless
        the chat already has it, and the flow ends either way. */
    method SaveBook(chat: int, title: string, author: string, year: int) returns (response: Response)
      modifies this, store
      ensures Snapshot() == old(Snapshot()).Clear(chat, old(CurrentFlags()).(bookMode := false))
      ensures var known := Complete(title, author, year) in old(store.Shelf(chat));
        && store.shelves == (if known then old(store.shelves)
                             else old(store.shelves)[chat := old(store.Shelf(chat)) + [Complete(title, author, year)]])
        && response == if known then AlreadyRead else BookAdded(title, author, year)
    {
      if !store.BookExists(title, author, year, chat) {
        store.AddReadBook(title, author, year, chat);
        bookMode := false;
        response := BookAdded(title, author, year);
      } else {
        bookMode := false;
        response := AlreadyRead;
      }
      bookInputSteps := bookInputSteps - {chat};
      bookData := bookData - {chat};
    }

    method HandleGetByAuthor(text: string, chat: int) returns (response: Response)
      requires Valid() && ActiveMode(CurrentFlags()) == ByAuthor
      modifies this
      ensures Valid() && old(activeVotingChats) <= activeVotingChats
      ensures var r := Route(old(Snapshot()), old(store.Shelf(chat)), chat, text);
        && Snapshot() == r.state && response == r.response && unchanged(voting)
        && store.shelves == WithShelf(old(store.shelves), chat, r.shelf)
    {
      response := AnswerAuthor(chat, Trim(text));
      AuthorKeeps(old(Snapshot()), old(store.Shelf(chat)), chat, Trim(text));
    }

    method AnswerAuthor(chat: int, author: string) returns (response: Response)
      modifies this
      ensures Snapshot() == AuthorStep(old(Snapshot()), old(store.Shelf(chat)), chat, author).state
      ensures response == AuthorStep(old(Snapshot()), old(store.Shelf(chat)), chat, author).response
    {
      if Snapshot().StepOr(chat, Title) == Title {
        var titles := store.BooksByAuthor(author, chat);
        bookInputSteps := bookInputSteps - {chat};
        bookData := bookData - {chat};
        authorBookMode := false;
        response := if titles == [] then NoBooksByAuthor else AuthorList(author, titles);
      } else {
        authorBookMode := false;
        response := AuthorStepUnknown;
      }
    }

    method HandleGetByYear(text: string, chat: int) returns (response: Response)
      requires Valid() && ActiveMode(CurrentFlags()) == ByYear
      modifies this
      ensures Valid() && old(activeVotingChats) <= activeVotingChats
      ensures var r := Route(old(Snapshot()), old(store.Shelf(chat)), chat, text);
        && Snapshot() == r.state && response == r.response && unchanged(voting)
        && store.shelves == WithShelf(old(store.shelves), chat, r.shelf)
    {
      var query := Trim(text);
      response := AnswerYear(chat, query, ParseInt(query));
      YearKeeps(old(Snapshot()), old(store.Shelf(chat)), chat, query, ParseInt(query));
    }

    method AnswerYear(chat: int, query: string, year: Option<int>) returns (response: Response)
      modifies this
      ensures Snapshot() == YearStep(old(Snapshot()), old(store.Shelf(chat)), chat, query, year).state
      ensures response == YearStep(old(Snapshot()), old(store.Shelf(chat)), chat, query, year).response
    {
      if Snapshot().StepOr(chat, Title) == Title {
        match year
        case None =>
          bookData := bookData[chat := query];
          response := Thrown(NumberFormat);
        case Some(y) =>
          var titles := store.BooksByYear(y, chat);
          bookInputSteps := bookInputSteps - {chat};
          bookData := bookData - {chat};
          yearBookMode := false;
          response := if titles == [] then NoBooksInYear else YearList(y, titles);
      } else {
        response := YearStepUnknown;
      }
    }

    method HandleRemoveBook(text: string, chat: int) returns (response: Response)
      requires Valid() && ActiveMode(CurrentFlags()) == RemoveBook
      modifies this, store
      ensures Valid() && old(activeVotingChats) <= activeVotingChats
      ensures var r := Route(old(Snapshot()), old(store.Shelf(chat)), chat, text);
        && Snapshot() == r.state && response == r.response && unchanged(voting)
        && store.shelves == WithShelf(old(store.shelves), chat, r.shelf)
    {
      response := AnswerRemove(chat, ParseInt(Trim(text)));
      RemoveKeeps(old(Snapshot()), old(store.Shelf(chat)), chat, ParseInt(Trim(text)));
    }

    method AnswerRemove(chat: int, number: Option<int>) returns (response: Response)
      modifies this, store
      ensures Snapshot() == RemoveStep(old(Snapshot()), old(store.Shelf(chat)), chat, number).state
      ensures response == RemoveStep(old(Snapshot()), old(store.Shelf(chat)), chat, number).response
      ensures store.shelves == WithShelf(old(store.shelves), chat, RemoveStep(old(Snapshot()), old(store.Shelf(chat)), chat, number).shelf)
    {
      if Snapshot().StepOr(chat, Title) == Title {
        response := RemoveNumber(chat, number);
      } else {
        response := RemoveStepUnknown;
      }
    }

    method RemoveNumber(chat: int, number: Option<int>) returns (response: Response)
      modifies this, store
      ensures Snapshot() == RemovePick(old(Snapshot()), old(store.Shelf(chat)), chat, number).state
      ensures response == RemovePick(old(Snapshot()), old(store.Shelf(chat)), chat, number).response
      ensures store.shelves == WithShelf(old(store.shelves), chat, RemovePick(old(Snapshot()), old(store.Shelf(chat)), chat, number).shelf)
    {
      if number.Some? && 1 <= number.value <= |store.ReadBooks(chat)| {
        response := RemoveListed(chat, number.value);
      } else {
        response := RemoveRejected(chat, number);
      }
    }

    /** A listed number: that title leaves the shelf and the flow ends. */
    method RemoveListed(chat: int, n: int) returns (response: Response)
      requires 1 <= n <= |store.ReadBooks(chat)|
      modifies this, store
      ensures Snapshot() == RemovePick(old(Snapshot()), old(store.Shelf(chat)), chat, Some(n)).state
      ensures response == RemovePick(old(Snapshot()), old(store.Shelf(chat)), chat, Some(n)).response
      ensures store.shelves == WithShelf(old(store.shelves), chat, RemovePick(old(Snapshot()), old(store.Shelf(chat)), chat, Some(n)).shelf)
    {
      var listed := store.ReadBooks(chat);
      bookInputSteps := bookInputSteps - {chat};
      bookData := bookData - {chat};
      store.UpdateReadBooks(chat, RemoveAt(listed, n - 1));
      removeBookMode := false;
      response := BookRemoved(listed[n - 1]);
    }

    /** No number, or one outside the list: the step and draft go, the flag stays. */
    method RemoveRejected(chat: int, number: Option<int>) returns (response: Response)
      requires !(number.Some? && 1 <= number.value <= |store.ReadBooks(chat)|)
      modifies this
      ensures Snapshot() == RemovePick(old(Snapshot()), old(store.Shelf(chat)), chat, number).state
      ensures response == RemovePick(old(Snapshot()), old(store.Shelf(chat)), chat, number).response
      ensures store.shelves == WithShelf(old(store.shelves), chat, RemovePick(old(Snapshot()), old(store.Shelf(chat)), chat, number).shelf)
    {
      bookInputSteps := bookInputSteps - {chat};
      bookData := bookData - {chat};
      response := if number.None? then BadNumber else NoSuchNumber;
    }

    method HandleEditBookMode(text: string, chat: int) returns (response: Response)
      requires Valid() && ActiveMode(CurrentFlags()) == EditBook
      modifies this, store
      ensures Valid() && old(activeVotingChats) <= activeVotingChats
      ensures var r := Route(old(Snapshot()), old(store.Shelf(chat)), chat, text);
        && Snapshot() == r.state && response == r.response && unchanged(voting)
        && store.shelves == WithShelf(old(store.shelves), chat, r.shelf)
    {
      var answer := Trim(text);
      var rows := store.AllValues(chat);
      response := AnswerEdit(chat, answer, ParseInt(answer), EditYearStep(Snapshot().Draft(chat) + [NL] + answer, rows));
      EditKeeps(old(Snapshot()), old(store.Shelf(chat)), chat, answer, ParseInt(answer), EditYearStep(old(Snapshot()).Draft(chat) + [NL] + answer, rows));
    }

    method AnswerEdit(chat: int, answer: string, number: Option<int>, outcome: EditOutcome) returns (response: Response)
      requires HasDraft(chat)
      modifies this, store
      ensures Snapshot() == EditStep(old(Snapshot()), old(store.Shelf(chat)), chat, answer, number, outcome).state
      ensures response == EditStep(old(Snapshot()), old(store.Shelf(chat)), chat, answer, number, outcome).response
      ensures store.shelves == WithShelf(old(store.shelves), chat, EditStep(old(Snapshot()), old(store.Shelf(chat)), chat, answer, number, outcome).shelf)
    {
      if Snapshot().StepOr(chat, Number) == Number {
        response := PickRow(chat, answer, number);
      } else {
        response := AnswerField(chat, answer, outcome);
      }
    }

    method AnswerField(chat: int, answer: string, outcome: EditOutcome) returns (response: Response)
      requires HasDraft(chat) && Snapshot().StepOr(chat, Number) != Number
      modifies this, store
      ensures Snapshot() == EditField(old(Snapshot()), old(store.Shelf(chat)), chat, answer, outcome).state
      ensures response == EditField(old(Snapshot()), old(store.Shelf(chat)), chat, answer, outcome).response
      ensures store.shelves == WithShelf(old(store.shelves), chat, EditField(old(Snapshot()), old(store.Shelf(chat)), chat, answer, outcome).shelf)
    {
      var step := bookInputSteps[chat];
      if step == Year {
        response := FinishEdit(chat, bookData[chat] + [NL] + answer, outcome);
      } else {
        AppendLine(chat, answer, if step == Title then Author else Year);
        response := if step == Title then AskNewAuthor else AskNewYear;
      }
    }

    /** One more line of the chat's draft: the answer is appended and the chat
        moves on to the next step. */
    method AppendLine(chat: int, answer: string, next: Step)
      requires chat in bookData
      modifies this
      ensures Snapshot() == old(Snapshot()).Advance(chat, next, old(bookData[chat]) + [NL] + answer)
    {
      bookData := bookData[chat := bookData[chat] + [NL] + answer];
      bookInputSteps := bookInputSteps[chat := next];
    }

    method PickRow(chat: int, answer: string, number: Option<int>) returns (response: Response)
      modifies this
      ensures Snapshot() == EditPick(old(Snapshot()), old(store.Shelf(chat)), chat, answer, number).state
      ensures response == EditPick(old(Snapshot()), old(store.Shelf(chat)), chat, answer, number).response
    {
      var rows := store.AllValues(chat);
      if number.Some? && 1 <= number.value <= |rows| {
        bookData := bookData[chat := answer];
        bookInputSteps := bookInputSteps[chat := Title];
        response := AskNewTitle;
      } else {
        response := if number.None? then BadNumber else NoSuchNumber;
      }
    }

    method FinishEdit(chat: int, draft: string, outcome: EditOutcome) returns (response: Response)
      modifies this, store
      ensures Snapshot() == EditFinish(old(Snapshot()), old(store.Shelf(chat)), chat, draft, outcome).state
      ensures response == EditFinish(old(Snapshot()), old(store.Shelf(chat)), chat, draft, outcome).response
      ensures store.shelves == WithShelf(old(store.shelves), chat, EditFinish(old(Snapshot()), old(store.Shelf(chat)), chat, draft, outcome).shelf)
    {
      if outcome.Edited? {
        response := SaveEdit(chat, outcome.oldTitle, outcome.oldAuthor, outcome.oldYear,
                             outcome.newTitle, outcome.newAuthor, outcome.newYear);
      } else {
        bookData := bookData[chat := draft];
        response := if outcome.EditBadNumber? then BadYear else Thrown(IndexOutOfBounds);
      }
    }

    /** The edit flow's last step once the draft reads: the row is rewritten and the flow ends. */
    method SaveEdit(chat: int, oldTitle: string, oldAuthor: string, oldYear: int,
                    newTitle: string, newAuthor: string, newYear: int) returns (response: Response)
      modifies this, store
      ensures Snapshot() == old(Snapshot()).Clear(chat, old(CurrentFlags()).(editBookMode := false))
      ensures store.shelves == old(store.shelves)[chat := Replace(old(store.Shelf(chat)),
                 Complete(oldTitle, oldAuthor, oldYear), Complete(newTitle, newAuthor, newYear))]
      ensures response == BookEdited(oldTitle)
    {
      store.EditReadBook(oldTitle, oldAuthor, oldYear, newTitle, newAuthor, newYear, chat);
      editBookMode := false;
      response := BookEdited(oldTitle);
      bookInputSteps := bookInputSteps - {chat};
      bookData := bookData - {chat};
    }

    /** The reply of /vote, /revote and /voteresults after the last voting day. */
    method ClosedVoting() returns (response: Response)
      requires Valid()
      ensures ClosedReply(response)
    {
      if votingInProgress {
        var winner := voting.FinishVoting();
        if winner.None? {
          response := Thrown(IndexOutOfBounds);
        } else {
          response := Winner(winner.value);
        }
      } else {
        response := NoLeader;
      }
    }

    method HandleDefaultMode(text: string, chat: int, day: int) returns (response: Response)
      requires Valid() && CurrentFlags() == NoMode
      modifies this, store, voting
      ensures Valid()
      ensures DefaultAnswered(text, chat, ParseCommand(text), day <= old(votingEndDay), response)
      ensures old(activeVotingChats) <= activeVotingChats
    {
      response := AnswerDefault(text, chat, ParseCommand(text), day <= votingEndDay);
    }

    method AnswerDefault(text: string, chat: int, command: Command, open: bool) returns (response: Response)
      requires Valid() && CurrentFlags() == NoMode
      modifies this, store, voting
      ensures Valid()
      ensures DefaultAnswered(text, chat, command, open, response)
      ensures old(activeVotingChats) <= activeVotingChats
    {
      if command == VoteCmd {
        response := StartVoting(chat, open);
      } else if command == Revote {
        response := Revoting(chat, open);
      } else if command == VoteResults {
        response := ShowResults(open);
      } else {
        response := RunCommand(text, chat, command);
        CommandKeeps(old(Snapshot()), old(store.Shelf(chat)), chat, text, command);
      }
    }

    /** Every command of the default handler but the vote commands. */
    method RunCommand(text: string, chat: int, command: Command) returns (response: Response)
      requires !IsVoteCommand(command)
      modifies this, store
      ensures Snapshot() == CommandStep(old(Snapshot()), old(store.Shelf(chat)), chat, text, command).state
      ensures response == CommandStep(old(Snapshot()), old(store.Shelf(chat)), chat, text, command).response
      ensures store.shelves == WithShelf(old(store.shelves), chat, CommandStep(old(Snapshot()), old(store.Shelf(chat)), chat, text, command).shelf)
      ensures old(activeVotingChats) <= activeVotingChats
    {
      if IsFlowCommand(command) {
        response := OpenFlow(chat, command);
      } else {
        response := LocalCommand(text, chat, command);
      }
    }

    /** The commands that open no flow: replies, the puzzle and the shelf commands. */
    method LocalCommand(text: string, chat: int, command: Command) returns (response: Response)
      requires !IsVoteCommand(command) && !IsFlowCommand(command)
      modifies this, store
      ensures Snapshot() == CommandStep(old(Snapshot()), old(store.Shelf(chat)), chat, text, command).state
      ensures response == CommandStep(old(Snapshot()), old(store.Shelf(chat)), chat, text, command).response
      ensures store.shelves == WithShelf(old(store.shelves), chat, CommandStep(old(Snapshot()), old(store.Shelf(chat)), chat, text, command).shelf)
      ensures old(activeVotingChats) <= activeVotingChats
    {
      match command {
        case ClearRead =>
          response := ClearShelf(text, chat);
        case GetRead =>
          response := ListShelf(text, chat);
        case Help | Quote | Genres | Advice(_) | Other =>
          response := Reply(text, command);
        case PlayPuzzle =>
          response := StartPuzzle(text, chat);
      }
    }

    /** /playpuzzle: the puzzle mode is switched on. */
    method StartPuzzle(text: string, chat: int) returns (response: Response)
      modifies this
      ensures Snapshot() == CommandStep(old(Snapshot()), old(store.Shelf(chat)), chat, text, PlayPuzzle).state
      ensures response == CommandStep(old(Snapshot()), old(store.Shelf(chat)), chat, text, PlayPuzzle).response
      ensures CommandStep(old(Snapshot()), old(store.Shelf(chat)), chat, text, PlayPuzzle).shelf == None
      ensures unchanged(`activeVotingChats)
    {
      puzzleMode := true;
      response := PuzzleStarted;
    }

    /** /clearread: the chat's shelf is emptied. */
    method ClearShelf(text: string, chat: int) returns (response: Response)
      modifies store
      ensures Snapshot() == CommandStep(old(Snapshot()), old(store.Shelf(chat)), chat, text, ClearRead).state
      ensures response == CommandStep(old(Snapshot()), old(store.Shelf(chat)), chat, text, ClearRead).response
      ensures store.shelves == WithShelf(old(store.shelves), chat, CommandStep(old(Snapshot()), old(store.Shelf(chat)), chat, text, ClearRead).shelf)
    {
      store.ClearReadBooks(chat);
      response := ReadCleared;
    }

    /** /getread: the chat's titles, numbered from 1, or a note that there are none. */
    method ListShelf(text: string, chat: int) returns (response: Response)
      ensures Snapshot() == CommandStep(old(Snapshot()), old(store.Shelf(chat)), chat, text, GetRead).state
      ensures response == CommandStep(old(Snapshot()), old(store.Shelf(chat)), chat, text, GetRead).response
      ensures store.shelves == WithShelf(old(store.shelves), chat, CommandStep(old(Snapshot()), old(store.Shelf(chat)), chat, text, GetRead).shelf)
    {
      var listed := store.ReadBooks(chat);
      if listed == [] {
        response := ReadEmpty;
      } else {
        var lines := NumberItems(listed);
        response := ReadList(lines);
      }
    }

    /** The five flow commands of the default handler. */
    method OpenFlow(chat: int, command: Command) returns (response: Response)
      requires IsFlowCommand(command)
      modifies this
      ensures Snapshot() == FlowStart(old(Snapshot()), chat, command).state
      ensures response == FlowStart(old(Snapshot()), chat, command).response
      ensures old(activeVotingChats) <= activeVotingChats
    {
      match command {
        case AddBookCmd =>
          bookMode := true;
          response := AskTitle;
        case EditBookCmd =>
          editBookMode := true;
          response := AskNumberToEdit;
        case ByAuthorCmd =>
          authorBookMode := true;
          response := AskAuthorQuery;
        case ByYearCmd =>
          yearBookMode := true;
          response := AskYearQuery;
        case RemoveBookCmd =>
          removeBookMode := true;
          response := AskNumberToRemove;
      }
      bookInputSteps := bookInputSteps[chat := if command == EditBookCmd then Number else Title];
      bookData := bookData[chat := []];
    }

    /** /vote. */
    method StartVoting(chat: int, open: bool) returns (response: Response)
      requires Valid() && CurrentFlags() == NoMode
      modifies this
      ensures Valid()
      ensures VoteCommandDone(chat, open, response)
      ensures old(activeVotingChats) <= activeVotingChats
    {
      if open {
        if !votingInProgress || chat !in activeVotingChats {
          response := JoinVote(chat);
        } else {
          response := NoRepeatVote;
        }
      } else {
        response := ClosedVoting();
      }
    }

    /** A chat joins the vote: the vote is on, the chat is recorded and gets the
        numbered catalogue. */
    method JoinVote(chat: int) returns (response: Response)
      requires Valid() && CurrentFlags() == NoMode
      modifies this
      ensures Valid()
      ensures Snapshot() == old(Snapshot()).(flags := NoMode.(voteMode := true), inProgress := true,
                                             activeChats := old(activeVotingChats) + {chat})
      ensures response == VoteWelcome(Numbered(voting.books))
    {
      votingInProgress := true;
      voteMode := true;
      activeVotingChats := activeVotingChats + {chat};
      var list := voting.ShowBookList(chat);
      response := VoteWelcome(list);
    }

    /** /revote. */
    method Revoting(chat: int, open: bool) returns (response: Response)
      requires Valid() && CurrentFlags() == NoMode
      modifies this, voting
      ensures Valid()
      ensures RevoteDone(chat, open, response)
      ensures old(activeVotingChats) <= activeVotingChats
    {
      if open {
        if chat in activeVotingChats {
          voteMode := true;
          voting.CancelUserVotes(chat);
          var list := voting.ShowBookList(chat);
          response := RevoteList(list);
        } else {
          response := RevoteBeforeVote;
        }
      } else {
        response := ClosedVoting();
      }
    }

    /** /voteresults. */
    method ShowResults(open: bool) returns (response: Response)
      requires Valid()
      ensures ResultsDone(open, response)
    {
      if open {
        var rows := voting.GetVotingStatistics();
        response := VoteStatistics(rows);
      } else {
        response := ClosedVoting();
      }
    }

    /** setVotingEndDay. */
    method SetVotingEndDay(day: int)
      modifies this
      ensures Snapshot() == old(Snapshot()).(endDay := day)
    {
      votingEndDay := day;
    }
  }

  // ------------------------------------------------------------ the router's invariant

  /** What every handler but the vote commands keeps: the router stays
      consistent and the vote gate does not move. */
  ghost predicate Keeps(s: RouterState, t: RouterState)
  {
    && Consistent(t)
    && t.inProgress == s.inProgress && t.endDay == s.endDay && t.activeChats == s.activeChats
  }

  lemma PuzzleKeeps(s: RouterState, text: string)
    requires Consistent(s)
    ensures Keeps(s, PuzzleStep(s, text).state)
  {
  }

  lemma AddKeeps(s: RouterState, shelf: seq<Record>, chat: int, answer: string, outcome: AddOutcome)
    requires Consistent(s)
    ensures Keeps(s, AddStep(s, shelf, chat, answer, outcome).state)
  {
  }

  lemma AuthorKeeps(s: RouterState, shelf: seq<Record>, chat: int, author: string)
    requires Consistent(s)
    ensures Keeps(s, AuthorStep(s, shelf, chat, author).state)
  {
  }

  lemma YearKeeps(s: RouterState, shelf: seq<Record>, chat: int, query: string, year: Option<int>)
    requires Consistent(s)
    ensures Keeps(s, YearStep(s, shelf, chat, query, year).state)
  {
  }

  lemma RemoveKeeps(s: RouterState, shelf: seq<Record>, chat: int, number: Option<int>)
    requires Consistent(s)
    ensures Keeps(s, RemoveStep(s, shelf, chat, number).state)
  {
  }

  lemma EditKeeps(s: RouterState, shelf: seq<Record>, chat: int, answer: string, number: Option<int>, outcome: EditOutcome)
    requires Consistent(s)
    ensures Keeps(s, EditStep(s, shelf, chat, answer, number, outcome).state)
  {
  }

  /** A command of the default handler raises at most one flag from none, and
      starts a flow with both a step and a draft. */
  lemma CommandKeeps(s: RouterState, shelf: seq<Record>, chat: int, text: string, command: Command)
    requires Consistent(s) && s.flags == NoMode && !IsVoteCommand(command)
    ensures Keeps(s, CommandStep(s, shelf, chat, text, command).state)
  {
  }
}
