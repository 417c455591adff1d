/** The monthly "book of the month" vote: per chat an ordered ballot of book
    numbers, a cached per-book counter of raw votes, a weighted tally (first
    pick 3 points, second 2, third 1) and the statistics listing. */
module Voting {
  import opened Text

  /** A candidate of the current window, as the catalog lists it. */
  datatype Book = Book(title: string, author: string)

  /** One line of a tally or of the statistics: a book number and its votes. */
  datatype Entry = Entry(book: int, votes: int)

  /** What processUserVotes answers, without the wording. */
  datatype VoteReply =
    | EnterNumber(size: int)          // the text is not an int
    | NoSuchBook(size: int)           // the int is outside 1..size
    | AlreadyChosen                   // the book is already on this ballot
    | Chosen(book: int, remaining: int)
    | Thanks                          // the ballot just reached three picks

  /** `Map.getOrDefault(k, 0)`. */
  function Get(m: map<int, int>, k: int): int
  {
    if k in m then m[k] else 0
  }

  predicate NoDuplicates(s: seq<int>)
  {
    forall i, j :: 0 <= i < j < |s| ==> s[i] != s[j]
  }

  predicate InCatalog(s: seq<int>, size: int)
  {
    forall i :: 0 <= i < |s| ==> 1 <= s[i] <= size
  }

  // ------------------------------------------------------------ raw counts

  /** The chats whose ballot contains book b: what bookVotesCount[b] caches. */
  ghost function Holders(votes: map<int, seq<int>>, b: int): set<int>
  {
    set c | c in votes && b in votes[c]
  }

  /** An accepted pick adds its chat to the holders of that book and of no other. */
  lemma HoldersAfterPick(votes: map<int, seq<int>>, c: int, n: int, b: int)
    requires c in votes && n !in votes[c]
    ensures |Holders(votes[c := votes[c] + [n]], b)| == |Holders(votes, b)| + (if b == n then 1 else 0)
  {
    var after := Holders(votes[c := votes[c] + [n]], b);
    if b == n {
      assert after == Holders(votes, b) + {c};
      assert c !in Holders(votes, b);
    } else {
      assert after == Holders(votes, b);
    }
  }

  /** Dropping a ballot removes its chat from the holders of exactly the books on it. */
  lemma HoldersAfterCancel(votes: map<int, seq<int>>, c: int, b: int)
    requires c in votes
    ensures |Holders(votes - {c}, b)| == |Holders(votes, b)| - (if b in votes[c] then 1 else 0)
  {
    var after := Holders(votes - {c}, b);
    if b in votes[c] {
      assert Holders(votes, b) == after + {c};
    } else {
      assert after == Holders(votes, b);
    }
  }

  /** A first-time chat's empty ballot holds no book. */
  lemma HoldersAfterOpen(votes: map<int, seq<int>>, c: int, b: int)
    requires c !in votes
    ensures Holders(votes[c := []], b) == Holders(votes, b)
  {
  }

  // ------------------------------------------------------------ weighted tally

  /** Points a ballot gives book b: position i is worth 3 - i, summed over the
      positions holding b, as getSortedVotes adds them up. */
  function Points(ballot: seq<int>, b: int): int
  {
    if ballot == [] then 0
    else
      var last := |ballot| - 1;
      Points(ballot[..last], b) + (if ballot[last] == b then 3 - last else 0)
  }

  /** On a ballot without duplicates a book earns 3 - (its position), or nothing
      when it is not on the ballot. */
  lemma {:induction false} PointsAtPosition(ballot: seq<int>, b: int)
    requires NoDuplicates(ballot)
    ensures b !in ballot ==> Points(ballot, b) == 0
    ensures forall i :: 0 <= i < |ballot| && ballot[i] == b ==> Points(ballot, b) == 3 - i
  {
    if ballot != [] {
      var last := |ballot| - 1;
      var front := ballot[..last];
      PointsAtPosition(front, b);
      forall i | 0 <= i < |ballot| && ballot[i] == b
        ensures Points(ballot, b) == 3 - i
      {
        if i < last {
          assert front[i] == b;
          assert ballot[last] != b;
        } else {
          forall k | 0 <= k < |front| ensures front[k] != b {
            assert ballot[k] != ballot[last];
          }
        }
      }
    }
  }

  /** A complete ballot gives its three books 3, 2 and 1 points in pick order
      and nothing to any other book. */
  lemma ThreePicks(x: int, y: int, z: int, b: int)
    requires x != y && y != z && x != z
    ensures Points([x, y, z], x) == 3 && Points([x, y, z], y) == 2 && Points([x, y, z], z) == 1
    ensures b != x && b != y && b != z ==> Points([x, y, z], b) == 0
  {
    var s := [x, y, z];
    PointsAtPosition(s, b);
    PointsAtPosition(s, x);
    PointsAtPosition(s, y);
    PointsAtPosition(s, z);
    assert s[0] == x && s[1] == y && s[2] == z;
  }

  lemma NoElementMeansEmpty(s: set<int>)
    ensures (forall x :: x !in s) ==> s == {}
  {
    if forall x :: x !in s {
      assert s == {};
    }
  }

  /** A non-empty set has an element to pick. */
  lemma SomeElement(s: set<int>)
    requires s != {}
    ensures exists x :: x in s
  {
    NoElementMeansEmpty(s);
  }

  /** The points of every ballot in `chats`, summed. */
  ghost function SumPoints(votes: map<int, seq<int>>, chats: set<int>, b: int): int
    requires chats <= votes.Keys
    decreases chats
  {
    if chats == {} then 0
    else
      SomeElement(chats);
      var c :| c in chats;
      Points(votes[c], b) + SumPoints(votes, chats - {c}, b)
  }

  /** The weighted score of book b over all ballots. */
  ghost function Score(votes: map<int, seq<int>>, b: int): int
  {
    SumPoints(votes, votes.Keys, b)
  }

  /** Every book on some ballot of `chats`. */
  ghost function Voted(votes: map<int, seq<int>>, chats: set<int>): set<int>
    requires chats <= votes.Keys
  {
    set c, x | c in chats && x in votes[c] :: x
  }

  lemma InVoted(votes: map<int, seq<int>>, chats: set<int>, c: int, x: int)
    requires chats <= votes.Keys && c in chats && x in votes[c]
    ensures x in Voted(votes, chats)
  {
  }

  /** Adding a chat adds the books on its ballot. */
  lemma VotedAdd(votes: map<int, seq<int>>, chats: set<int>, c: int)
    requires chats <= votes.Keys && c in votes
    ensures Voted(votes, chats + {c}) == Voted(votes, chats) + (set x | x in votes[c])
  {
    forall x | x in Voted(votes, chats + {c}) ensures x in Voted(votes, chats) || x in votes[c] {
      var d :| d in chats + {c} && x in votes[d];
      if d != c {
        InVoted(votes, chats, d, x);
      }
    }
    forall x | x in Voted(votes, chats) ensures x in Voted(votes, chats + {c}) {
      var d :| d in chats && x in votes[d];
      InVoted(votes, chats + {c}, d, x);
    }
    forall x | x in votes[c] ensures x in Voted(votes, chats + {c}) {
      InVoted(votes, chats + {c}, c, x);
    }
  }

  /** No book is on any ballot exactly when every ballot is empty. */
  lemma NothingVoted(votes: map<int, seq<int>>)
    ensures AllVoted(votes) == {} <==> forall c :: c in votes ==> votes[c] == []
  {
    forall c | c in votes && votes[c] != [] ensures votes[c][0] in AllVoted(votes) {
      InVoted(votes, votes.Keys, c, votes[c][0]);
    }
    forall x | x in AllVoted(votes) ensures exists c :: c in votes && votes[c] != [] {
      var d :| d in votes && x in votes[d];
    }
  }

  /** The books that appear on at least one ballot: the keys of the tally. */
  ghost function AllVoted(votes: map<int, seq<int>>): set<int>
  {
    Voted(votes, votes.Keys)
  }

  /** Adding one chat to the counted ones adds its ballot's points. */
  lemma SumPointsAdd(votes: map<int, seq<int>>, done: set<int>, c: int)
    requires done <= votes.Keys && c in votes && c !in done
    ensures forall b :: SumPoints(votes, done + {c}, b) == SumPoints(votes, done, b) + Points(votes[c], b)
  {
    forall b ensures SumPoints(votes, done + {c}, b) == SumPoints(votes, done, b) + Points(votes[c], b) {
      SumPointsRemove(votes, done + {c}, c, b);
      assert done + {c} - {c} == done;
    }
  }

  /** One ballot's points added to a tally, position by position. */
  method AddBallot(tally: map<int, int>, ballot: seq<int>) returns (next: map<int, int>)
    ensures next.Keys == tally.Keys + (set x | x in ballot)
    ensures forall b :: Get(next, b) == Get(tally, b) + Points(ballot, b)
  {
    next := tally;
    var i := 0;
    while i < |ballot|
      invariant 0 <= i <= |ballot|
      invariant next.Keys == tally.Keys + (set x | x in ballot[..i])
      invariant forall b :: Get(next, b) == Get(tally, b) + Points(ballot[..i], b)
    {
      var b := ballot[i];
      assert ballot[..i + 1][..i] == ballot[..i];
      next := next[b := Get(next, b) + (3 - i)];
      i := i + 1;
    }
    assert ballot[..i] == ballot;
  }

  /** The sum may take any chat out first. */
  lemma {:induction false} SumPointsRemove(votes: map<int, seq<int>>, chats: set<int>, c: int, b: int)
    requires chats <= votes.Keys && c in chats
    ensures SumPoints(votes, chats, b) == Points(votes[c], b) + SumPoints(votes, chats - {c}, b)
    decreases chats
  {
    var d :| d in chats && SumPoints(votes, chats, b) == Points(votes[d], b) + SumPoints(votes, chats - {d}, b);
    if d != c {
      SumPointsRemove(votes, chats - {d}, c, b);
      SumPointsRemove(votes, chats - {c}, d, b);
      assert chats - {d} - {c} == chats - {c} - {d};
    }
  }

  /** The sum only looks at the ballots of the chats it is over. */
  lemma {:induction false} SumPointsAgree(v: map<int, seq<int>>, w: map<int, seq<int>>, chats: set<int>, b: int)
    requires chats <= v.Keys && chats <= w.Keys
    requires forall c :: c in chats ==> v[c] == w[c]
    ensures SumPoints(v, chats, b) == SumPoints(w, chats, b)
    decreases chats
  {
    if chats != {} {
      SomeElement(chats);
      var c :| c in chats;
      SumPointsRemove(v, chats, c, b);
      SumPointsRemove(w, chats, c, b);
      SumPointsAgree(v, w, chats - {c}, b);
    }
  }

  /** Cancelling a chat's ballot takes exactly its points out of every book's
      score, with nothing left behind. */
  lemma ScoreAfterCancel(votes: map<int, seq<int>>, c: int, b: int)
    requires c in votes
    ensures Score(votes - {c}, b) == Score(votes, b) - Points(votes[c], b)
  {
    SumPointsRemove(votes, votes.Keys, c, b);
    assert (votes - {c}).Keys == votes.Keys - {c};
    SumPointsAgree(votes - {c}, votes, votes.Keys - {c}, b);
  }

  /** An appended pick adds 3 - (its position) to that book's score and nothing elsewhere. */
  lemma ScoreAfterPick(votes: map<int, seq<int>>, c: int, n: int, b: int)
    requires c in votes
    ensures Score(votes[c := votes[c] + [n]], b)
         == Score(votes, b) + (if b == n then 3 - |votes[c]| else 0)
  {
    var after := votes[c := votes[c] + [n]];
    assert after.Keys == votes.Keys;
    SumPointsRemove(after, votes.Keys, c, b);
    SumPointsRemove(votes, votes.Keys, c, b);
    SumPointsAgree(after, votes, votes.Keys - {c}, b);
    assert (votes[c] + [n])[..|votes[c]|] == votes[c];
  }

  // ------------------------------------------------------------ ranking

  /** Votes non-increasing; equal votes in ascending book order. This is what a
      stable sort by votes, descending, makes of a list in ascending book order. */
  predicate Ranked(s: seq<Entry>)
  {
    forall i, j :: 0 <= i < j < |s| ==>
      s[i].votes > s[j].votes || (s[i].votes == s[j].votes && s[i].book < s[j].book)
  }

  predicate AscendingBooks(s: seq<Entry>)
  {
    forall i, j :: 0 <= i < j < |s| ==> s[i].book < s[j].book
  }

  lemma InsertRanked(r: seq<Entry>, j: nat, x: Entry)
    requires Ranked(r) && j <= |r|
    requires forall k :: 0 <= k < j ==> r[k].votes > x.votes || (r[k].votes == x.votes && r[k].book < x.book)
    requires forall k :: j <= k < |r| ==> r[k].votes < x.votes
    ensures Ranked(r[..j] + [x] + r[j..])
  {
    var t := r[..j] + [x] + r[j..];
    forall a, b | 0 <= a < b < |t|
      ensures t[a].votes > t[b].votes || (t[a].votes == t[b].votes && t[a].book < t[b].book)
    {
      if b < j {
        assert t[a] == r[a] && t[b] == r[b];
      } else if b == j {
        assert t[a] == r[a];
      } else if a == j {
        assert t[b] == r[b - 1];
      } else if a < j {
        assert t[a] == r[a] && t[b] == r[b - 1];
      } else {
        assert t[a] == r[a - 1] && t[b] == r[b - 1];
      }
    }
  }

  /** Where insertion puts x: after the prefix of entries with at least its votes. */
  method InsertionPoint(r: seq<Entry>, x: Entry) returns (j: nat)
    requires Ranked(r)
    ensures j <= |r|
    ensures forall k :: 0 <= k < j ==> r[k].votes >= x.votes
    ensures forall k :: j <= k < |r| ==> r[k].votes < x.votes
  {
    j := 0;
    while j < |r| && r[j].votes >= x.votes
      invariant 0 <= j <= |r|
      invariant forall k :: 0 <= k < j ==> r[k].votes >= x.votes
    {
      j := j + 1;
    }
    forall k | j <= k < |r| ensures r[k].votes < x.votes {
      assert k == j || r[j].votes >= r[k].votes;
    }
  }

  /** One insertion step: x, whose book number is above every book in r, goes
      in at its insertion point. */
  method InsertEntry(r: seq<Entry>, x: Entry) returns (t: seq<Entry>)
    requires Ranked(r)
    requires forall k :: 0 <= k < |r| ==> r[k].book < x.book
    ensures multiset(t) == multiset(r) + multiset{x}
    ensures Ranked(t)
    ensures forall k :: 0 <= k < |t| ==> t[k].book <= x.book
  {
    var j := InsertionPoint(r, x);
    InsertRanked(r, j, x);
    t := r[..j] + [x] + r[j..];
    assert r == r[..j] + r[j..];
    forall k | 0 <= k < |t| ensures t[k].book <= x.book {
      if k < j {
        assert t[k] == r[k];
      } else if j < k {
        assert t[k] == r[k - 1];
      }
    }
  }

  /** The entries of a tally keyed by book numbers 1..count, in ascending book
      order (the order a HashMap of small integer keys iterates in). */
  method EntrySet(tally: map<int, int>, count: int) returns (entries: seq<Entry>)
    ensures AscendingBooks(entries)
    ensures forall i :: 0 <= i < |entries| ==>
      entries[i].book in tally && entries[i].votes == tally[entries[i].book]
    ensures forall x :: 1 <= x <= count && x in tally ==> Entry(x, tally[x]) in entries
  {
    entries := [];
    var b := 1;
    while b <= count
      invariant 1 <= b <= count + 1 || (count < 1 && b == 1)
      invariant forall i :: 0 <= i < |entries| ==> 1 <= entries[i].book < b
      invariant AscendingBooks(entries)
      invariant forall i :: 0 <= i < |entries| ==>
        entries[i].book in tally && entries[i].votes == tally[entries[i].book]
      invariant forall x :: 1 <= x < b && x in tally ==> Entry(x, tally[x]) in entries
    {
      if b in tally {
        entries := entries + [Entry(b, tally[b])];
      }
      b := b + 1;
    }
  }

  /** The stable descending sort by votes both listings use, as an insertion
      sort: each entry goes after every entry with at least as many votes. */
  method SortByVotes(s: seq<Entry>) returns (r: seq<Entry>)
    requires AscendingBooks(s)
    ensures multiset(r) == multiset(s)
    ensures Ranked(r)
  {
    r := [];
    var i := 0;
    while i < |s|
      invariant 0 <= i <= |s|
      invariant multiset(r) == multiset(s[..i])
      invariant Ranked(r)
      invariant i < |s| ==> forall k :: 0 <= k < |r| ==> r[k].book < s[i].book
    {
      r := InsertEntry(r, s[i]);
      assert s[..i + 1] == s[..i] + [s[i]];
      i := i + 1;
    }
    assert s[..i] == s;
  }

  // ------------------------------------------------------------ the engine

  class BookVoting {
    /** The current window of candidates; book n is books[n - 1]. */
    const books: seq<Book>
    var userVotes: map<int, seq<int>>
    var bookVotesCount: map<int, int>

    /** Every ballot is free of duplicates and names catalog books only, and the
        cached counter of every book equals the number of ballots holding it. */
    ghost predicate Valid()
      reads this
    {
      && (forall c :: c in userVotes ==> NoDuplicates(userVotes[c]) && InCatalog(userVotes[c], |books|))
      && (forall b :: Get(bookVotesCount, b) == |Holders(userVotes, b)|)
    }

    function Ballot(chat: int): seq<int>
      reads this
    {
      if chat in userVotes then userVotes[chat] else []
    }

    constructor (catalog: seq<Book>)
      ensures Valid()
      ensures books == catalog && userVotes == map[] && bookVotesCount == map[]
    {
      books := catalog;
      userVotes := map[];
      bookVotesCount := map[];
    }

    /** showBookList: the candidates numbered from 1, in catalog order. */
    method ShowBookList(chat: int) returns (list: seq<(int, Book)>)
      ensures list == Numbered(books)
    {
      list := NumberItems(books);
    }

    /** What processUserVotes does to the ballots and counters, and what it answers. */
    twostate predicate Picked(text: string, chat: int, reply: VoteReply)
      reads this
    {
      var ballot := old(Ballot(chat));
      match ParseInt(text)
      case None =>
        && reply == EnterNumber(|books|)
        && userVotes == old(userVotes)[chat := ballot] && bookVotesCount == old(bookVotesCount)
      case Some(n) =>
        if !(1 <= n <= |books|) then
          && reply == NoSuchBook(|books|)
          && userVotes == old(userVotes)[chat := ballot] && bookVotesCount == old(bookVotesCount)
        else if n in ballot then
          && reply == AlreadyChosen
          && userVotes == old(userVotes)[chat := ballot] && bookVotesCount == old(bookVotesCount)
        else
          && userVotes == old(userVotes)[chat := ballot + [n]]
          && bookVotesCount == old(bookVotesCount)[n := Get(old(bookVotesCount), n) + 1]
          && reply == (if |ballot| + 1 == 3 then Thanks else Chosen(n, 3 - (|ballot| + 1)))
    }

    /** processUserVotes: a first-time chat gets an empty ballot; a pick that is
        an int in 1..size and not yet on the ballot is appended and counted. */
    method ProcessUserVotes(text: string, chat: int) returns (reply: VoteReply)
      requires Valid()
      modifies this
      ensures Valid()
      ensures Picked(text, chat, reply)
    {
      if chat !in userVotes {
        forall b ensures Holders(userVotes[chat := []], b) == Holders(userVotes, b) {
          HoldersAfterOpen(userVotes, chat, b);
        }
        userVotes := userVotes[chat := []];
      }
      assert Valid();
      var votes := userVotes[chat];
      var parsed := ParseInt(text);
      if parsed.None? {
        return EnterNumber(|books|);
      }
      var n := parsed.value;
      if !(1 <= n <= |books|) {
        return NoSuchBook(|books|);
      }
      if n in votes {
        return AlreadyChosen;
      }
      ghost var before := userVotes;
      votes := votes + [n];
      userVotes := userVotes[chat := votes];
      bookVotesCount := bookVotesCount[n := Get(bookVotesCount, n) + 1];
      forall b ensures Get(bookVotesCount, b) == |Holders(userVotes, b)| {
        HoldersAfterPick(before, chat, n, b);
      }
      if |votes| == 3 {
        reply := Thanks;
      } else {
        reply := Chosen(n, 3 - |votes|);
      }
    }

    /** What cancelUserVotes does: the chat's ballot is gone, and the counter of
        each book on it went down by one unless it was already zero. */
    twostate predicate Cancelled(chat: int)
      reads this
    {
      && userVotes == old(userVotes) - {chat}
      && bookVotesCount.Keys == old(bookVotesCount).Keys
      && forall b :: b in bookVotesCount ==>
           bookVotesCount[b] == if b in old(Ballot(chat)) && old(bookVotesCount)[b] > 0
                                then old(bookVotesCount)[b] - 1 else old(bookVotesCount)[b]
    }

    /** cancelUserVotes: the chat's ballot is dropped and the counter of each
        book on it goes down by one (never below zero); other ballots stay. */
    method CancelUserVotes(chat: int)
      requires Valid()
      modifies this
      ensures Valid()
      ensures Cancelled(chat)
    {
      if chat in userVotes {
        var votes := userVotes[chat];
        var i := 0;
        while i < |votes|
          invariant 0 <= i <= |votes|
          invariant userVotes == old(userVotes)
          invariant bookVotesCount.Keys == old(bookVotesCount).Keys
          invariant forall b :: b in bookVotesCount ==>
            bookVotesCount[b] == if b in votes[..i] && old(bookVotesCount)[b] > 0
                                 then old(bookVotesCount)[b] - 1 else old(bookVotesCount)[b]
        {
          var b := votes[i];
          assert b !in votes[..i];
          var current := Get(bookVotesCount, b);
          if current > 0 {
            bookVotesCount := bookVotesCount[b := current - 1];
          }
          assert votes[..i + 1] == votes[..i] + [b];
          i := i + 1;
        }
        assert votes[..i] == votes;
        forall b ensures Get(bookVotesCount, b) == |Holders(userVotes - {chat}, b)| {
          HoldersAfterCancel(userVotes, chat, b);
          if b in votes {
            assert chat in Holders(userVotes, b);
          }
        }
        userVotes := userVotes - {chat};
      }
    }

    /** getSortedVotes: each book on some ballot with its weighted score, ranked
        by score with ties in ascending book order. */
    method GetSortedVotes() returns (sorted: seq<Entry>)
      requires Valid()
      ensures forall i :: 0 <= i < |sorted| ==>
        sorted[i].book in AllVoted(userVotes) && sorted[i].votes == Score(userVotes, sorted[i].book)
      ensures forall b :: b in AllVoted(userVotes) ==> Entry(b, Score(userVotes, b)) in sorted
      ensures Ranked(sorted)
    {
      var tally := Tally();
      var entries := EntrySet(tally, |books|);
      forall x | x in tally ensures 1 <= x <= |books| {
        var c, k :| c in userVotes && 0 <= k < |userVotes[c]| && userVotes[c][k] == x;
      }
      sorted := SortByVotes(entries);
      forall i | 0 <= i < |sorted|
        ensures sorted[i].book in AllVoted(userVotes) && sorted[i].votes == Score(userVotes, sorted[i].book)
      {
        assert sorted[i] in multiset(entries);
      }
      forall x | x in AllVoted(userVotes) ensures Entry(x, Score(userVotes, x)) in sorted {
        assert Entry(x, tally[x]) in multiset(entries);
      }
    }

    /** The weighted tally as a map from book to score, built ballot by ballot. */
    method Tally() returns (tally: map<int, int>)
      requires Valid()
      ensures tally.Keys == AllVoted(userVotes)
      ensures forall b :: b in tally ==> tally[b] == Score(userVotes, b)
    {
      tally := map[];
      var remaining := userVotes.Keys;
      ghost var done: set<int> := {};
      while remaining != {}
        invariant remaining <= userVotes.Keys && done == userVotes.Keys - remaining
        invariant tally.Keys == Voted(userVotes, done)
        invariant forall b :: Get(tally, b) == SumPoints(userVotes, done, b)
        decreases remaining
      {
        SomeElement(remaining);
        var c :| c in remaining;
        tally := AddBallot(tally, userVotes[c]);
        SumPointsAdd(userVotes, done, c);
        VotedAdd(userVotes, done, c);
        done := done + {c};
        remaining := remaining - {c};
      }
      assert done == userVotes.Keys;
      forall b | b in tally ensures tally[b] == Score(userVotes, b) {
        assert Get(tally, b) == tally[b];
      }
    }

    /** The book getTopBook names: on some ballot, with the highest score, and
        the lowest number among books sharing that score. */
    ghost predicate IsWinner(w: int)
      reads this
    {
      && w in AllVoted(userVotes)
      && forall b :: b in AllVoted(userVotes) ==>
           Score(userVotes, b) < Score(userVotes, w) || (Score(userVotes, b) == Score(userVotes, w) && w <= b)
    }

    /** getTopBook: the first entry of the ranked tally; there is none, and Java
        fails on sortedVotes.get(0), exactly when every ballot is empty. */
    method GetTopBook() returns (top: Option<int>)
      requires Valid()
      ensures top.None? <==> forall c :: c in userVotes ==> userVotes[c] == []
      ensures top.Some? ==> IsWinner(top.value) && 1 <= top.value <= |books|
    {
      var sorted := GetSortedVotes();
      NothingVoted(userVotes);
      if |sorted| == 0 {
        assert AllVoted(userVotes) == {};
        return None;
      }
      var maxVotes := sorted[0].votes;
      top := Some(sorted[0].book);
      forall b | b in AllVoted(userVotes)
        ensures Score(userVotes, b) < maxVotes || (Score(userVotes, b) == maxVotes && sorted[0].book <= b)
      {
        var k :| 0 <= k < |sorted| && sorted[k] == Entry(b, Score(userVotes, b));
        assert k == 0 || sorted[0].votes > sorted[k].votes || sorted[0].book < sorted[k].book;
      }
      var c, k :| c in userVotes && 0 <= k < |userVotes[c]| && userVotes[c][k] == sorted[0].book;
    }

    /** The answer of finishVoting: the winner's catalog entry, or nothing when
        every ballot is empty (where Java throws). */
    ghost predicate FinishReply(winner: Option<Book>)
      reads this
    {
      && (winner.None? <==> forall c :: c in userVotes ==> userVotes[c] == [])
      && (winner.Some? ==> exists w :: IsWinner(w) && 1 <= w <= |books| && winner.value == books[w - 1])
    }

    /** finishVoting: the winning candidate, or None where Java throws because
        no ballot holds a pick. */
    method FinishVoting() returns (winner: Option<Book>)
      requires Valid()
      ensures FinishReply(winner)
    {
      var top := GetTopBook();
      if top.None? {
        return None;
      }
      winner := Some(books[top.value - 1]);
    }

    /** The statistics listing: every book of the window once, with the number of
        ballots holding it, ranked by that number with ties in ascending book order. */
    ghost predicate Statistics(stats: seq<Entry>)
      reads this
    {
      && |stats| == |books|
      && (forall i :: 0 <= i < |stats| ==>
            1 <= stats[i].book <= |books| && stats[i].votes == |Holders(userVotes, stats[i].book)|)
      && (forall b :: 1 <= b <= |books| ==> Entry(b, |Holders(userVotes, b)|) in stats)
      && Ranked(stats)
    }

    /** getVotingStatistics: every book of the window once, with its raw count,
        ranked by count with ties in ascending book order. */
    method GetVotingStatistics() returns (stats: seq<Entry>)
      requires Valid()
      ensures Statistics(stats)
    {
      var rows: seq<Entry> := [];
      var b := 1;
      while b <= |books|
        invariant 1 <= b <= |books| + 1
        invariant |rows| == b - 1
        invariant forall i :: 0 <= i < |rows| ==> rows[i] == Entry(i + 1, Get(bookVotesCount, i + 1))
      {
        rows := rows + [Entry(b, Get(bookVotesCount, b))];
        b := b + 1;
      }
      stats := SortByVotes(rows);
      assert |multiset(stats)| == |multiset(rows)|;
      forall i | 0 <= i < |stats|
        ensures 1 <= stats[i].book <= |books| && stats[i].votes == |Holders(userVotes, stats[i].book)|
      {
        assert stats[i] in multiset(rows);
      }
      forall x | 1 <= x <= |books| ensures Entry(x, |Holders(userVotes, x)|) in stats {
        assert rows[x - 1] in multiset(stats);
      }
    }
  }
}
