/** The few java.lang.String and java.lang.Integer operations the chat handlers
    rely on, written out with Java's own edge cases: `trim`, `split("\n")`,
    `Integer.parseInt` and the decimal rendering of an `int`. */
module Text {

  datatype Option<T> = None | Some(value: T)

  const MinInt: int := -0x8000_0000
  const MaxInt: int := 0x7fff_ffff

  /** A value of Java's 32-bit `int`. */
  predicate IsInt32(n: int) { MinInt <= n <= MaxInt }

  // ---------------------------------------------------------------- trim

  /** `String.trim` removes every leading and trailing character whose code is at most U+0020. */
  predicate IsBlank(c: char) { c <= ' ' }

  function TrimStart(s: string): (r: string)
    ensures |r| <= |s|
  {
    if s != [] && IsBlank(s[0]) then TrimStart(s[1..]) else s
  }

  function TrimEnd(s: string): (r: string)
    ensures |r| <= |s|
  {
    if s != [] && IsBlank(s[|s| - 1]) then TrimEnd(s[..|s| - 1]) else s
  }

  /** TrimStart keeps a suffix that is empty or starts with a non-blank, and
      everything it drops is blank. */
  lemma {:induction false} TrimStartShape(s: string)
    ensures TrimStart(s) == s[|s| - |TrimStart(s)|..]
    ensures TrimStart(s) == [] || !IsBlank(TrimStart(s)[0])
    ensures forall i :: 0 <= i < |s| - |TrimStart(s)| ==> IsBlank(s[i])
  {
    if s != [] && IsBlank(s[0]) {
      TrimStartShape(s[1..]);
      assert s[1..][|s| - 1 - |TrimStart(s)|..] == s[|s| - |TrimStart(s)|..];
      forall i | 1 <= i < |s| - |TrimStart(s)|
        ensures IsBlank(s[i])
      {
        assert s[i] == s[1..][i - 1];
      }
    }
  }

  /** TrimEnd keeps a prefix that is empty or ends with a non-blank, and
      everything it drops is blank. */
  lemma {:induction false} TrimEndShape(s: string)
    ensures TrimEnd(s) == s[..|TrimEnd(s)|]
    ensures TrimEnd(s) == [] || !IsBlank(TrimEnd(s)[|TrimEnd(s)| - 1])
    ensures forall i :: |TrimEnd(s)| <= i < |s| ==> IsBlank(s[i])
  {
    if s != [] && IsBlank(s[|s| - 1]) {
      TrimEndShape(s[..|s| - 1]);
      assert s[..|s| - 1][..|TrimEnd(s)|] == s[..|TrimEnd(s)|];
      forall i | |TrimEnd(s)| <= i < |s| - 1
        ensures IsBlank(s[i])
      {
        assert s[i] == s[..|s| - 1][i];
      }
    }
  }

  function Trim(s: string): (r: string)
  {
    TrimEnd(TrimStart(s))
  }

  /** Trimming a trimmed string changes nothing. */
  lemma TrimIdempotent(s: string)
    ensures Trim(Trim(s)) == Trim(s)
  {
    var t := TrimStart(s);
    var r := TrimEnd(t);
    TrimStartShape(s);
    TrimEndShape(t);
    if r != [] {
      assert r[0] == t[0];
      assert TrimStart(r) == r;
      assert TrimEnd(r) == r;
    }
  }

  /** `trim` keeps one contiguous slice of s: everything before and after it is
      blank, its ends are not, and it is empty exactly when s is all blank. */
  lemma TrimShape(s: string)
    ensures var k := |s| - |TrimStart(s)|;
      && k + |Trim(s)| <= |s| && Trim(s) == s[k..k + |Trim(s)|]
      && (forall i :: 0 <= i < k ==> IsBlank(s[i]))
      && (forall i :: k + |Trim(s)| <= i < |s| ==> IsBlank(s[i]))
      && (Trim(s) == [] || (!IsBlank(Trim(s)[0]) && !IsBlank(Trim(s)[|Trim(s)| - 1])))
    ensures Trim(s) == [] <==> forall i :: 0 <= i < |s| ==> IsBlank(s[i])
  {
    var t := TrimStart(s);
    var r := TrimEnd(t);
    var k := |s| - |t|;
    TrimStartShape(s);
    TrimEndShape(t);
    assert t == s[k..];
    assert r == s[k..k + |r|];
    forall i | k + |r| <= i < |s| ensures IsBlank(s[i]) {
      assert s[i] == t[i - k];
    }
    if r != [] {
      assert r[0] == t[0];
      assert s[k] == r[0];
    }
  }

  // ---------------------------------------------------------------- split

  const NL: char := '\n'

  /** The pieces of `s` between line breaks, before Java drops anything:
      one more piece than there are line breaks. */
  function Pieces(s: string): (r: seq<string>)
    ensures |r| >= 1
  {
    if NL !in s then [s]
    else
      var k := IndexOf(s, NL);
      [s[..k]] + Pieces(s[k + 1..])
  }

  function IndexOf(s: string, c: char): (k: nat)
    requires c in s
    ensures k < |s| && s[k] == c
  {
    if s[0] == c then 0 else 1 + IndexOf(s[1..], c)
  }

  /** IndexOf finds the first occurrence. */
  lemma {:induction false} IndexOfIsFirst(s: string, c: char)
    requires c in s
    ensures c !in s[..IndexOf(s, c)]
  {
    if s[0] != c {
      IndexOfIsFirst(s[1..], c);
      assert s[..IndexOf(s, c)] == [s[0]] + s[1..][..IndexOf(s[1..], c)];
    }
  }

  /** No piece holds a line break. */
  lemma {:induction false} PiecesHaveNoBreak(s: string)
    ensures forall i :: 0 <= i < |Pieces(s)| ==> NL !in Pieces(s)[i]
    decreases |s|
  {
    if NL in s {
      var k := IndexOf(s, NL);
      IndexOfIsFirst(s, NL);
      PiecesHaveNoBreak(s[k + 1..]);
    }
  }

  /** The first line break of `a + "\n" + b` is the one after `a` when `a` has none. */
  lemma {:induction false} IndexOfFirst(a: string, b: string, c: char)
    requires c !in a
    ensures IndexOf(a + [c] + b, c) == |a|
  {
    if a != [] {
      assert (a + [c] + b)[1..] == a[1..] + [c] + b;
      IndexOfFirst(a[1..], b, c);
    }
  }

  /** The pieces joined back with line breaks; the inverse of Pieces. */
  function JoinLines(parts: seq<string>): string
    requires |parts| >= 1
  {
    if |parts| == 1 then parts[0] else parts[0] + [NL] + JoinLines(parts[1..])
  }

  function DropTrailingEmpty(parts: seq<string>): (r: seq<string>)
    ensures |r| <= |parts|
  {
    if parts != [] && parts[|parts| - 1] == [] then DropTrailingEmpty(parts[..|parts| - 1]) else parts
  }

  /** DropTrailingEmpty keeps a prefix that is empty or ends with a non-empty
      piece, and everything it drops is empty. */
  lemma {:induction false} DropShape(parts: seq<string>)
    ensures DropTrailingEmpty(parts) == parts[..|DropTrailingEmpty(parts)|]
    ensures DropTrailingEmpty(parts) == [] || DropTrailingEmpty(parts)[|DropTrailingEmpty(parts)| - 1] != []
    ensures forall i :: |DropTrailingEmpty(parts)| <= i < |parts| ==> parts[i] == []
  {
    if parts != [] && parts[|parts| - 1] == [] {
      var front := parts[..|parts| - 1];
      DropShape(front);
      assert front[..|DropTrailingEmpty(parts)|] == parts[..|DropTrailingEmpty(parts)|];
      forall i | |DropTrailingEmpty(parts)| <= i < |parts| - 1
        ensures parts[i] == []
      {
        assert parts[i] == front[i];
      }
    }
  }

  /** `s.split("\n")`: an input without a line break comes back whole (even the
      empty string); otherwise the pieces, less every trailing empty one. */
  function SplitLines(s: string): (r: seq<string>)
  {
    if NL !in s then [s] else DropTrailingEmpty(Pieces(s))
  }

  /** No field of `split("\n")` holds a line break, and when the text has one,
      the last field (if any) is not empty. */
  lemma SplitLinesShape(s: string)
    ensures forall i :: 0 <= i < |SplitLines(s)| ==> NL !in SplitLines(s)[i]
    ensures NL in s ==> SplitLines(s) == [] || SplitLines(s)[|SplitLines(s)| - 1] != []
  {
    if NL in s {
      PiecesHaveNoBreak(s);
      DropShape(Pieces(s));
    }
  }

  /** A first line without a break splits off as the first piece. */
  lemma PiecesSplitAt(a: string, b: string)
    requires NL !in a
    ensures Pieces(a + [NL] + b) == [a] + Pieces(b)
  {
    var t := a + [NL] + b;
    assert t[|a|] == NL;
    IndexOfFirst(a, b, NL);
    assert t[..|a|] == a;
    assert t[|a| + 1..] == b;
  }

  /** Joining pieces that hold no line break and splitting again gives the pieces back. */
  lemma {:induction false} PiecesJoin(parts: seq<string>)
    requires |parts| >= 1
    requires forall i :: 0 <= i < |parts| ==> NL !in parts[i]
    ensures Pieces(JoinLines(parts)) == parts
  {
    if |parts| > 1 {
      PiecesSplitAt(parts[0], JoinLines(parts[1..]));
      PiecesJoin(parts[1..]);
      assert [parts[0]] + parts[1..] == parts;
    }
  }

  /** `split("\n")` undoes the join when no field holds a line break and the last
      field is not empty: the record written as lines reads back field by field. */
  lemma SplitJoin(parts: seq<string>)
    requires |parts| >= 1
    requires forall i :: 0 <= i < |parts| ==> NL !in parts[i]
    requires parts[|parts| - 1] != []
    ensures SplitLines(JoinLines(parts)) == parts
  {
    PiecesJoin(parts);
    var s := JoinLines(parts);
    if NL !in s {
      assert Pieces(s) == [s];
    }
  }

  /** Two one-line fields, the second non-empty, split back apart. */
  lemma SplitTwo(a: string, b: string)
    requires NL !in a && NL !in b && b != []
    ensures SplitLines(a + [NL] + b) == [a, b]
  {
    var parts := [a, b];
    assert parts[1..] == [b];
    assert JoinLines(parts) == a + [NL] + b;
    SplitJoin(parts);
  }

  /** Four one-line fields, the last non-empty, split back apart. */
  lemma SplitFour(a: string, b: string, c: string, d: string)
    requires NL !in a && NL !in b && NL !in c && NL !in d && d != []
    ensures SplitLines(a + [NL] + b + [NL] + c + [NL] + d) == [a, b, c, d]
  {
    var parts := [a, b, c, d];
    assert parts[1..] == [b, c, d] && parts[1..][1..] == [c, d] && parts[1..][1..][1..] == [d];
    assert JoinLines([c, d]) == c + [NL] + d;
    assert JoinLines([b, c, d]) == b + [NL] + (c + [NL] + d);
    assert JoinLines(parts) == a + [NL] + (b + [NL] + (c + [NL] + d));
    assert a + [NL] + (b + [NL] + (c + [NL] + d)) == a + [NL] + b + [NL] + c + [NL] + d;
    SplitJoin(parts);
  }

  /** A one-line text followed by a line break splits into at most one field:
      the empty field after the break is dropped. */
  lemma SplitTrailingBreak(a: string)
    requires NL !in a
    ensures |SplitLines(a + [NL])| <= 1
  {
    var t := a + [NL];
    assert t == a + [NL] + [];
    PiecesAppend(a, []);
    assert Pieces([]) == [[]];
    assert NL in t by { assert t[|a|] == NL; }
    assert DropTrailingEmpty([a, []]) == DropTrailingEmpty([a]);
  }

  /** Adding a line break and any text at the end of a text that already splits
      into at least `n` fields leaves its first `n` fields as they were. */
  lemma SplitKeepsPrefix(s: string, x: string, n: nat)
    requires NL in s
    requires n <= |SplitLines(s)|
    ensures n <= |SplitLines(s + [NL] + x)|
    ensures SplitLines(s + [NL] + x)[..n] == SplitLines(s)[..n]
  {
    var t := s + [NL] + x;
    assert NL in t by { assert t[|s|] == NL; }
    assert SplitLines(t) == DropTrailingEmpty(Pieces(s) + Pieces(x)) by { PiecesAppend(s, x); }
    DropKeepsPrefix(Pieces(s), Pieces(x), n);
  }

  /** Appending pieces never changes the first n pieces that survive the drop. */
  lemma DropKeepsPrefix(p: seq<string>, q: seq<string>, n: nat)
    requires n <= |DropTrailingEmpty(p)|
    ensures n <= |DropTrailingEmpty(p + q)|
    ensures DropTrailingEmpty(p + q)[..n] == DropTrailingEmpty(p)[..n]
  {
    var before := DropTrailingEmpty(p);
    DropAppend(p, q);
    if DropTrailingEmpty(q) != [] {
      var after := p + DropTrailingEmpty(q);
      assert before == p[..|before|] by { DropShape(p); }
      assert after[..n] == p[..n];
      assert before[..n] == p[..n];
    }
  }

  /** Dropping trailing empty pieces of p + q only reaches into p when q is all empty. */
  lemma {:induction false} DropAppend(p: seq<string>, q: seq<string>)
    ensures DropTrailingEmpty(p + q) ==
      if DropTrailingEmpty(q) == [] then DropTrailingEmpty(p) else p + DropTrailingEmpty(q)
    decreases |q|
  {
    if q == [] {
      assert p + q == p;
    } else if q[|q| - 1] == [] {
      var front := q[..|q| - 1];
      assert (p + q)[..|p + q| - 1] == p + front;
      DropAppend(p, front);
    } else {
      assert (p + q)[|p + q| - 1] == q[|q| - 1];
    }
  }

  /** Pieces(s + "\n" + x) is Pieces(s) followed by Pieces(x). */
  lemma {:induction false} PiecesAppend(s: string, x: string)
    ensures Pieces(s + [NL] + x) == Pieces(s) + Pieces(x)
    decreases |s|
  {
    if NL !in s {
      PiecesSplitAt(s, x);
    } else {
      var j := IndexOf(s, NL);
      var head, tail := s[..j], s[j + 1..];
      assert NL !in head by { IndexOfIsFirst(s, NL); }
      assert s == head + [NL] + tail;
      PiecesAppend(tail, x);
      PiecesRegroup(head, tail, x);
    }
  }

  /** The step of PiecesAppend: a break-free head splits off on both sides. */
  lemma PiecesRegroup(head: string, tail: string, x: string)
    requires NL !in head
    requires Pieces(tail + [NL] + x) == Pieces(tail) + Pieces(x)
    ensures Pieces(head + [NL] + tail + [NL] + x) == Pieces(head + [NL] + tail) + Pieces(x)
  {
    var rest := tail + [NL] + x;
    calc {
      Pieces(head + [NL] + tail + [NL] + x);
      { assert head + [NL] + tail + [NL] + x == head + [NL] + rest; }
      Pieces(head + [NL] + rest);
      { PiecesSplitAt(head, rest); }
      [head] + (Pieces(tail) + Pieces(x));
      ([head] + Pieces(tail)) + Pieces(x);
      { PiecesSplitAt(head, tail); }
      Pieces(head + [NL] + tail) + Pieces(x);
    }
  }

  // ---------------------------------------------------------------- listings

  /** Items numbered from 1, the way the bot lists catalogs and shelves. */
  function Numbered<T>(items: seq<T>): (r: seq<(int, T)>)
    ensures |r| == |items|
    ensures forall i :: 0 <= i < |items| ==> r[i] == (i + 1, items[i])
  {
    if items == [] then []
    else Numbered(items[..|items| - 1]) + [(|items|, items[|items| - 1])]
  }

  /** The numbering loop behind the /getread and voting listings. */
  method NumberItems<T>(items: seq<T>) returns (lines: seq<(int, T)>)
    ensures lines == Numbered(items)
  {
    lines := [];
    var number := 1;
    while number <= |items|
      invariant 1 <= number <= |items| + 1
      invariant lines == Numbered(items[..number - 1])
    {
      assert items[..number][..number - 1] == items[..number - 1];
      lines := lines + [(number, items[number - 1])];
      number := number + 1;
    }
    assert items[..|items|] == items;
  }

  // ---------------------------------------------------------------- integers

  predicate IsDigit(c: char) { '0' <= c <= '9' }

  predicate AllDigits(s: string) { forall i :: 0 <= i < |s| ==> IsDigit(s[i]) }

  function DigitValue(c: char): nat
    requires IsDigit(c)
  {
    c as int - '0' as int
  }

  /** The number a string of decimal digits denotes, most significant digit first. */
  function DigitsValue(s: string): nat
    requires AllDigits(s)
  {
    if s == [] then 0 else DigitsValue(s[..|s| - 1]) * 10 + DigitValue(s[|s| - 1])
  }

  /** `Integer.parseInt(s)`, or None where Java throws NumberFormatException: an
      optional sign, at least one decimal digit, nothing else, and a value that
      fits in an `int`. Surrounding blanks are NOT skipped. */
  function ParseInt(s: string): (r: Option<int>)
    ensures r.Some? ==> IsInt32(r.value)
    ensures r.Some? ==> s != [] && (IsDigit(s[0]) || s[0] == '-' || s[0] == '+')
  {
    if !WellFormed(s) then None
    else
      var v := SignedValue(s);
      if IsInt32(v) then Some(v) else None
  }


  /** The shape `Integer.parseInt` accepts: optional '+' or '-', then one or more digits. */
  predicate WellFormed(s: string)
  {
    if s != [] && (s[0] == '-' || s[0] == '+') then |s| >= 2 && AllDigits(s[1..])
    else s != [] && AllDigits(s)
  }

  function SignedValue(s: string): int
    requires WellFormed(s)
  {
    if s[0] == '-' then 0 - DigitsValue(s[1..])
    else if s[0] == '+' then DigitsValue(s[1..])
    else DigitsValue(s)
  }

  function DigitChar(d: nat): (c: char)
    requires d < 10
    ensures IsDigit(c) && DigitValue(c) == d
  {
    ('0' as int + d) as char
  }

  /** Decimal digits of a natural number, without leading zeros. */
  function ShowNat(n: nat): (s: string)
    ensures s != [] && AllDigits(s)
  {
    if n < 10 then [DigitChar(n)] else ShowNat(n / 10) + [DigitChar(n % 10)]
  }

  /** `Integer.toString(n)`, as string concatenation renders an `int`. */
  function ShowInt(n: int): (s: string)
    ensures s != [] && NL !in s
  {
    if n < 0 then "-" + ShowNat(-n) else ShowNat(n)
  }

  lemma {:induction false} ShowNatValue(n: nat)
    ensures DigitsValue(ShowNat(n)) == n
  {
    if n >= 10 {
      var s := ShowNat(n);
      assert s[..|s| - 1] == ShowNat(n / 10);
      ShowNatValue(n / 10);
    }
  }

  /** Digits that denote a value outside `int` do not parse: parseInt throws on overflow. */
  lemma ParseOverflow(n: int)
    requires !IsInt32(n)
    ensures ParseInt(ShowInt(n)) == None
  {
    var s := ShowInt(n);
    if n < 0 {
      ShowNatValue(-n);
      assert s[1..] == ShowNat(-n);
    } else {
      ShowNatValue(n);
      assert IsDigit(s[0]);
    }
  }

  /** A trailing blank makes the parse fail: parseInt does not trim. */
  lemma ParseTrailingBlank(s: string, c: char)
    requires IsBlank(c)
    ensures ParseInt(s + [c]) == None
  {
    var t := s + [c];
    assert t[|t| - 1] == c && !IsDigit(c);
    if |t| >= 2 {
      assert t[1..][|t| - 2] == c;
    }
  }

  /** Reading back what Java writes for an `int` gives that `int`. */
  lemma ParseShow(n: int)
    requires IsInt32(n)
    ensures ParseInt(ShowInt(n)) == Some(n)
  {
    var s := ShowInt(n);
    if n < 0 {
      ShowNatValue(-n);
      assert s[1..] == ShowNat(-n);
    } else {
      ShowNatValue(n);
      assert IsDigit(s[0]);
    }
  }
}
