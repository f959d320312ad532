/**
 * The parsing core of the qex tool (test/qex/qex.c): `toint` reads a
 * decimal number, `parse_range` reads up to six timestamp fields with `*`
 * wildcards, `qex_is_equal` matches a line's timestamp against the user's
 * range, and `index_tsv_line` parses one `<timestamp>\t<query>` line of a
 * buffer in place and counts the query when its timestamp matches.
 *
 * A C string is a `seq<char>` read through `At`: the position just past
 * the sequence reads as the terminating NUL.
 */
module Qex {
  import opened Common

  /** The character at position p; past the end, the terminating NUL. */
  function At(s: seq<char>, p: nat): char
  {
    if p < |s| then s[p] else '\0'
  }

  predicate IsDigit(c: char)
  {
    '0' <= c <= '9'
  }

  predicate IsBlank(c: char)
  {
    c == ' ' || c == '\t'
  }

  function DigitValue(c: char): int
  {
    (c as int) - ('0' as int)
  }

  predicate AllDigits(ds: seq<char>)
  {
    forall k :: 0 <= k < |ds| ==> IsDigit(ds[k])
  }

  /** The value of a decimal digit string, most significant digit first. */
  function Decimal(ds: seq<char>): int
  {
    if ds == [] then 0 else Decimal(ds[..|ds| - 1]) * 10 + DigitValue(ds[|ds| - 1])
  }

  function Pow10(k: nat): (r: nat)
    ensures r >= 1
  {
    if k == 0 then 1 else 10 * Pow10(k - 1)
  }

  /** The decimal rendering of n, without leading zeros (for n > 0). */
  function Render(n: nat): (r: seq<char>)
    ensures |r| >= 1 && AllDigits(r)
  {
    var d := ['0' + ((n % 10) as char)];
    if n < 10 then d else Render(n / 10) + d
  }

  /** Reading a rendering back gives the number. */
  lemma {:induction false} DecimalRender(n: nat)
    ensures Decimal(Render(n)) == n
  {
    var r := Render(n);
    if n >= 10 {
      DecimalRender(n / 10);
      assert r[..|r| - 1] == Render(n / 10);
    }
  }

  /** The first position from p that is not a space or a tab. */
  function SkipBlanks(s: seq<char>, p: nat): (r: nat)
    requires p <= |s|
    ensures p <= r <= |s|
    decreases |s| - p
  {
    if IsBlank(At(s, p)) then SkipBlanks(s, p + 1) else p
  }

  /** The end of the run of digits that starts at p. */
  function DigitsEnd(s: seq<char>, p: nat): (r: nat)
    requires p <= |s|
    ensures p <= r <= |s|
    decreases |s| - p
  {
    if IsDigit(At(s, p)) then DigitsEnd(s, p + 1) else p
  }

  /** What toint yields: the number read and the position it stops at. */
  datatype Token = Token(value: int, next: nat)

  /**
   * toint from position p: spaces and tabs are skipped, then the maximal
   * run of digits is read (0 when there is none), and `next` is the first
   * position that is not a digit.
   */
  function ReadInt(s: seq<char>, p: nat): (r: Token)
    requires p <= |s|
    ensures p <= r.next <= |s|
    ensures r.next == p ==> r.value == 0
  {
    var b := SkipBlanks(s, p);
    var e := DigitsEnd(s, b);
    Token(Number(s, b, e), e)
  }

  /** The value of the digits s[b..e], most significant first. */
  function Number(s: seq<char>, b: nat, e: nat): (r: int)
    requires b <= e <= |s|
    ensures e == b ==> r == 0
    ensures e == b + 1 ==> r == DigitValue(s[b])
    decreases e - b
  {
    if e == b then 0 else Number(s, b, e - 1) * 10 + DigitValue(s[e - 1])
  }

  /** A run of n digits reads as a value in [0, 10^n). */
  lemma {:induction false} NumberBound(s: seq<char>, b: nat, e: nat)
    requires b <= e <= |s| && forall k :: b <= k < e ==> IsDigit(s[k])
    ensures 0 <= Number(s, b, e) < Pow10(e - b)
    decreases e - b
  {
    if e > b {
      NumberBound(s, b, e - 1);
    }
  }

  /** Number reads a slice of s as Decimal reads the slice. */
  lemma {:induction false} NumberDecimal(s: seq<char>, b: nat, e: nat)
    requires b <= e <= |s|
    ensures Number(s, b, e) == Decimal(s[b..e])
    decreases e - b
  {
    if e > b {
      NumberDecimal(s, b, e - 1);
      assert s[b..e][..e - b - 1] == s[b..e - 1];
    }
  }

  /** A run of digits from p that ends at e, where no digit follows, is the run DigitsEnd finds. */
  lemma {:induction false} DigitsEndAt(s: seq<char>, p: nat, e: nat)
    requires p <= e <= |s| && !IsDigit(At(s, e))
    requires forall k :: p <= k < e ==> IsDigit(s[k])
    ensures DigitsEnd(s, p) == e
    decreases e - p
  {
    if p < e {
      assert IsDigit(At(s, p));
      DigitsEndAt(s, p + 1, e);
    }
  }

  /** A digit string at p, followed by a non-digit, is read as its decimal value. */
  lemma ReadIntDigits(s: seq<char>, p: nat, ds: seq<char>)
    requires |ds| >= 1 && AllDigits(ds)
    requires p + |ds| <= |s| && s[p..p + |ds|] == ds && !IsDigit(At(s, p + |ds|))
    ensures ReadInt(s, p) == Token(Decimal(ds), p + |ds|)
  {
    var e := p + |ds|;
    assert forall k :: p <= k < e ==> IsDigit(s[k]) by {
      forall k | p <= k < e
        ensures IsDigit(s[k])
      {
        assert s[k] == s[p..e][k - p];
      }
    }
    assert !IsBlank(At(s, p));
    assert SkipBlanks(s, p) == p;
    DigitsEndAt(s, p, e);
    NumberDecimal(s, p, e);
  }

  /** toint on the rendering of n, followed by a non-digit, gives n back. */
  lemma ReadIntRender(n: nat, rest: seq<char>)
    requires !IsDigit(At(rest, 0))
    ensures ReadInt(Render(n) + rest, 0) == Token(n, |Render(n)|)
  {
    var s := Render(n) + rest;
    assert s[0..|Render(n)|] == Render(n);
    assert At(s, |Render(n)|) == At(rest, 0);
    ReadIntDigits(s, 0, Render(n));
    DecimalRender(n);
  }

  /**
   * toint, from position p (s is never NULL where it is called): the two
   * loops of the source, proved to give ReadInt.
   */
  method ToInt(s: seq<char>, p: nat) returns (value: int, next: nat)
    requires p <= |s|
    ensures Token(value, next) == ReadInt(s, p)
  {
    next := p;
    while IsBlank(At(s, next))
      invariant p <= next <= |s| && SkipBlanks(s, next) == SkipBlanks(s, p)
      decreases |s| - next
    {
      next := next + 1;
    }
    var b := next;
    value := 0;
    while IsDigit(At(s, next))
      invariant b <= next <= |s| && DigitsEnd(s, next) == DigitsEnd(s, b)
      invariant value == Number(s, b, next)
      decreases |s| - next
    {
      value := value * 10 + DigitValue(s[next]);
      next := next + 1;
    }
  }

  /** The six fields of a timestamp before any is read: all -1. */
  const Unset: seq<int> := [-1, -1, -1, -1, -1, -1]

  /**
   * What parse_range fills: year, month, day, hour, minute and second
   * (-1 where not given), and `end`, the last position toint stopped at
   * (None for a NULL range).
   */
  datatype Range = Range(date: seq<int>, end: Option<nat>)

  predicate FieldsFrom(date: seq<int>)
  {
    |date| == 6
  }

  /**
   * The loop of parse_range from field i at position p: a `*` gives -1 and
   * skips itself and one separator (unless the string ends), a field that
   * is neither a number nor `*` gives -1 and stops, a number followed by
   * NUL stops, and any other character after a number is stepped over as
   * a separator.
   */
  function Scan(s: seq<char>, p: nat, i: nat, date: seq<int>, next: Option<nat>): (r: Range)
    requires p <= |s| && i <= 6 && FieldsFrom(date)
    ensures FieldsFrom(r.date)
    ensures i < 6 ==> r.end.Some? && r.end.value <= |s|
    decreases 6 - i, |s| - p
  {
    if i == 6 then Range(date, next)
    else
      var t := ReadInt(s, p);
      if t.next == p && At(s, p) == '*' then
        Scan(s, if At(s, p + 1) != '\0' then p + 2 else p + 1, i + 1, date[i := -1], Some(t.next))
      else if t.next == p then Range(date[i := -1], Some(t.next))
      else if At(s, t.next) == '\0' then Range(date[i := t.value], Some(t.next))
      else Scan(s, t.next + 1, i + 1, date[i := t.value], Some(t.next))
  }

  /** parse_range of a non-NULL string from position p. */
  function Parsed(s: seq<char>, p: nat): (r: Range)
    requires p <= |s|
    ensures FieldsFrom(r.date) && r.end.Some? && r.end.value <= |s|
  {
    Scan(s, p, 0, Unset, None)
  }

  /**
   * parse_range: the source's loop over the six fields, proved to give
   * Parsed.
   */
  method ParseRange(s: seq<char>, p: nat) returns (r: Range)
    requires p <= |s|
    ensures r == Parsed(s, p)
  {
    var date := Unset;
    var next: Option<nat> := None;
    var q: nat := p;
    var i := 0;
    while i < 6
      invariant 0 <= i <= 6 && q <= |s| && FieldsFrom(date)
      invariant Scan(s, q, i, date, next) == Parsed(s, p)
    {
      var value, nt := ToInt(s, q);
      next := Some(nt);
      if nt == q && At(s, q) == '*' {
        date := date[i := -1];
        q := q + 1;
        if At(s, q) != '\0' {
          q := q + 1;
        }
      } else if nt == q {
        date := date[i := -1];
        return Range(date, next);
      } else {
        date := date[i := value];
        if At(s, nt) == '\0' {
          return Range(date, next);
        }
        q := nt + 1;
      }
      i := i + 1;
    }
    return Range(date, next);
  }

  /** The digit strings separated, and each followed, by the separator characters. */
  function Joined(ds: seq<seq<char>>, seps: seq<char>): (r: seq<char>)
    requires |ds| == |seps|
    ensures |r| == Width(ds)
  {
    if ds == [] then [] else ds[0] + [seps[0]] + Joined(ds[1..], seps[1..])
  }

  predicate DigitRuns(ds: seq<seq<char>>)
  {
    forall k :: 0 <= k < |ds| ==> |ds[k]| >= 1 && AllDigits(ds[k])
  }

  function Decimals(ds: seq<seq<char>>): (r: seq<int>)
    ensures |r| == |ds|
  {
    if ds == [] then [] else [Decimal(ds[0])] + Decimals(ds[1..])
  }

  /** The first digit string, its separator and the rest of a join. */
  lemma JoinedParts(ds: seq<seq<char>>, seps: seq<char>)
    requires |ds| == |seps| >= 1
    ensures var j := Joined(ds, seps); var d := ds[0];
      |j| == |d| + 1 + |Joined(ds[1..], seps[1..])| &&
      j[..|d|] == d && j[|d|] == seps[0] && j[|d| + 1..] == Joined(ds[1..], seps[1..])
  {
    assert Joined(ds, seps) == ds[0] + [seps[0]] + Joined(ds[1..], seps[1..]);
  }

  /** A slice of a slice is a slice. */
  lemma SliceOfSlice(s: seq<char>, p: nat, n: nat, a: nat, b: nat)
    requires p + n <= |s| && a <= b <= n
    ensures s[p..p + n][a..b] == s[p + a..p + b]
  {
    var t := s[p..p + n][a..b];
    assert forall k :: 0 <= k < |t| ==> t[k] == s[p + a..p + b][k];
  }

  /** Where the first digit string and separator of a join end, and where the rest starts. */
  lemma JoinedSplit(s: seq<char>, p: nat, ds: seq<seq<char>>, seps: seq<char>)
    requires |ds| == |seps| >= 1
    requires p + |Joined(ds, seps)| <= |s| && s[p..p + |Joined(ds, seps)|] == Joined(ds, seps)
    ensures var q := p + |ds[0]|; var rest := Joined(ds[1..], seps[1..]);
      q < |s| && s[p..q] == ds[0] && s[q] == seps[0] &&
      q + 1 + |rest| == p + |Joined(ds, seps)| && s[q + 1..q + 1 + |rest|] == rest
  {
    var d := ds[0];
    var j := Joined(ds, seps);
    var n := |j|;
    JoinedParts(ds, seps);
    SliceOfSlice(s, p, n, 0, |d|);
    SliceOfSlice(s, p, n, |d| + 1, n);
    assert s[p + |d|] == s[p..p + n][|d|];
  }

  /** The width of the join: every digit string plus its separator. */
  function Width(ds: seq<seq<char>>): nat
  {
    if ds == [] then 0 else |ds[0]| + 1 + Width(ds[1..])
  }

  /**
   * From p on, toint reads the value of each digit string of ds in turn and
   * stops on its separator, which is neither a digit nor NUL.
   */
  predicate Tokens(s: seq<char>, p: nat, ds: seq<seq<char>>, seps: seq<char>)
    requires p <= |s| && |ds| == |seps|
    decreases |ds|
  {
    ds == [] ||
    (p + |ds[0]| < |s| && |ds[0]| >= 1 && ReadInt(s, p) == Token(Decimal(ds[0]), p + |ds[0]|) &&
     s[p + |ds[0]|] == seps[0] && seps[0] != '\0' &&
     Tokens(s, p + |ds[0]| + 1, ds[1..], seps[1..]))
  }

  /** A join written at p is read token by token, and its length is its width. */
  lemma {:induction false} JoinedTokens(s: seq<char>, p: nat, ds: seq<seq<char>>, seps: seq<char>)
    requires |ds| == |seps| && DigitRuns(ds)
    requires forall k :: 0 <= k < |seps| ==> seps[k] != '\0' && !IsDigit(seps[k])
    requires p + |Joined(ds, seps)| <= |s| && s[p..p + |Joined(ds, seps)|] == Joined(ds, seps)
    ensures Tokens(s, p, ds, seps)
    decreases |ds|
  {
    if ds != [] {
      JoinedSplit(s, p, ds, seps);
      ReadIntDigits(s, p, ds[0]);
      JoinedTokens(s, p + |ds[0]| + 1, ds[1..], seps[1..]);
    }
  }

  /**
   * The first field of a join read token by token: the value of its digit
   * string, with the scan going on after its separator.
   */
  lemma ScanJoinedStep(s: seq<char>, p: nat, i: nat, date: seq<int>, next: Option<nat>,
                       ds: seq<seq<char>>, seps: seq<char>, fields: seq<int>, e: nat)
    requires i < 6 && FieldsFrom(date) && |ds| == |seps| == 6 - i
    requires p <= |s| && Tokens(s, p, ds, seps)
    requires fields == date[..i] + Decimals(ds) && e == p + Width(ds) - 1
    ensures var q := p + |ds[0]|; var after := date[i := Decimal(ds[0])];
      q + 1 <= |s| && Tokens(s, q + 1, ds[1..], seps[1..]) &&
      Scan(s, p, i, date, next) == Scan(s, q + 1, i + 1, after, Some(q)) &&
      fields == after[..i + 1] + Decimals(ds[1..]) && e == q + 1 + Width(ds[1..]) - 1
  {
    DateAppend(date, i, Decimal(ds[0]), ds);
  }

  /** The last field of a timestamp: read, and `end` at its separator. */
  lemma ScanJoinedLast(s: seq<char>, p: nat, i: nat, date: seq<int>, next: Option<nat>,
                       ds: seq<seq<char>>, seps: seq<char>, fields: seq<int>, e: nat)
    requires i == 5 && FieldsFrom(date) && |ds| == |seps| == 1
    requires p <= |s| && Tokens(s, p, ds, seps)
    requires fields == date[..i] + Decimals(ds) && e == p + Width(ds) - 1
    ensures Scan(s, p, i, date, next) == Range(fields, Some(e))
  {
    var q := p + |ds[0]|;
    var after := date[i := Decimal(ds[0])];
    ScanJoinedStep(s, p, i, date, next, ds, seps, fields, e);
    assert Scan(s, q + 1, i + 1, after, Some(q)) == Range(after, Some(q));
    assert ds[1..] == [];
    assert fields == after && e == q;
  }

  /**
   * The last fields of a timestamp, each a digit string followed by a
   * separator that is neither a digit nor NUL, are read as their decimal
   * values (`fields`, after the fields before i), and `end` is the position
   * e of the last separator.
   */
  lemma {:induction false} ScanJoined(s: seq<char>, p: nat, i: nat, date: seq<int>, next: Option<nat>,
                                      ds: seq<seq<char>>, seps: seq<char>, fields: seq<int>, e: nat)
    requires i <= 6 && FieldsFrom(date) && |ds| == |seps| == 6 - i && |ds| >= 1
    requires p <= |s| && Tokens(s, p, ds, seps)
    requires fields == date[..i] + Decimals(ds) && e == p + Width(ds) - 1
    ensures Scan(s, p, i, date, next) == Range(fields, Some(e))
    decreases |ds|
  {
    if |ds| == 1 {
      ScanJoinedLast(s, p, i, date, next, ds, seps, fields, e);
    } else {
      var q := p + |ds[0]|;
      var after := date[i := Decimal(ds[0])];
      ScanJoinedStep(s, p, i, date, next, ds, seps, fields, e);
      ScanJoined(s, q + 1, i + 1, after, Some(q), ds[1..], seps[1..], fields, e);
    }
  }

  /** Setting field i to the first value and appending the others gives the fields before i followed by all of them. */
  lemma DateAppend(date: seq<int>, i: nat, v: int, ds: seq<seq<char>>)
    requires i < |date| && |ds| >= 1 && v == Decimal(ds[0]) && |date| == i + |ds|
    ensures date[i := v][..i + 1] + Decimals(ds[1..]) == date[..i] + Decimals(ds)
  {
    assert Decimals(ds) == [v] + Decimals(ds[1..]);
    assert date[i := v][..i + 1] == date[..i] + [v];
  }

  /** The separators of `<YEAR>-<MONTH>-<DAY> <HOUR>:<MIN>:<SEC>\t`. */
  const TimestampSeps: seq<char> := ['-', '-', ' ', ':', ':', '\t']

  /**
   * A line that starts with the six fields of the TSV format reads as their
   * values, and `end` points at the tab that precedes the query.
   */
  lemma ParseTimestamp(s: seq<char>, p: nat, ds: seq<seq<char>>)
    requires |ds| == 6 && DigitRuns(ds)
    requires p + |Joined(ds, TimestampSeps)| <= |s|
    requires s[p..p + |Joined(ds, TimestampSeps)|] == Joined(ds, TimestampSeps)
    ensures Parsed(s, p) == Range(Decimals(ds), Some(p + |Joined(ds, TimestampSeps)| - 1))
    ensures At(s, Parsed(s, p).end.value) == '\t'
  {
    JoinedTokens(s, p, ds, TimestampSeps);
    ScanJoined(s, p, 0, Unset, None, ds, TimestampSeps, Decimals(ds), p + Width(ds) - 1);
    var n := |Joined(ds, TimestampSeps)|;
    assert s[p..p + n][n - 1] == '\t' by {
      JoinedLast(ds, TimestampSeps);
    }
  }

  /** The last character of a non-empty join is the last separator. */
  lemma {:induction false} JoinedLast(ds: seq<seq<char>>, seps: seq<char>)
    requires |ds| == |seps| >= 1
    ensures Joined(ds, seps)[|Joined(ds, seps)| - 1] == seps[|seps| - 1]
    decreases |ds|
  {
    if |ds| > 1 {
      JoinedLast(ds[1..], seps[1..]);
    }
  }

  /** A user range "2019-*" asks for the year 2019 and leaves the other fields open. */
  lemma YearWildcard()
    ensures Parsed("2019-*", 0).date == [2019, -1, -1, -1, -1, -1]
  {
    var s := "2019-*";
    ReadIntDigits(s, 0, "2019");
    assert Decimal("2019") == 2019 by {
      assert "2019"[..3] == "201" && "201"[..2] == "20" && "20"[..1] == "2" && "2"[..0] == "";
    }
    assert ReadInt(s, 5) == Token(0, 5);
    assert ReadInt(s, 6) == Token(0, 6);
  }

  /** A C `int` as the unsigned value of its 32 bits in two's complement. */
  function Bits(x: int): nat
  {
    x % Pow2(32)
  }

  /**
   * qex_is_equal as written: every field passes when the line's bits are a
   * subset of the user's, `(user & line) == line`.
   */
  predicate IsEqualAsWritten(line: seq<int>, user: seq<int>)
    requires |line| == 6 && |user| == 6
    ensures IsEqualAsWritten(line, user) ==> forall k :: 0 <= k < 6 ==> Bits(line[k]) <= Bits(user[k])
  {
    SubsetBelow(line, user);
    forall k :: 0 <= k < 6 ==> BitAnd(Bits(user[k]), Bits(line[k])) == Bits(line[k])
  }

  /** A field whose bits are a subset of the user's is at most the user's, as an unsigned value. */
  lemma SubsetBelow(line: seq<int>, user: seq<int>)
    requires |line| == 6 && |user| == 6
    ensures forall k :: 0 <= k < 6 && BitAnd(Bits(user[k]), Bits(line[k])) == Bits(line[k]) ==>
      Bits(line[k]) <= Bits(user[k])
  {
    forall k | 0 <= k < 6
      ensures BitAnd(Bits(user[k]), Bits(line[k])) <= Bits(user[k])
    {
      BitAndComm(Bits(user[k]), Bits(line[k]));
      BitAndBelow(Bits(line[k]), Bits(user[k]));
    }
  }

  /**
   * qex_is_equal as evidently intended: each field of the user's range is
   * either the wildcard -1 or equal to the line's.
   */
  predicate Matches(line: seq<int>, user: seq<int>)
    requires |line| == 6 && |user| == 6
    ensures line == user ==> Matches(line, user)
    ensures (forall k :: 0 <= k < 6 ==> user[k] == -1) ==> Matches(line, user)
    ensures Matches(line, user) && user[0] != -1 ==> line[0] == user[0]
  {
    forall k :: 0 <= k < 6 ==> user[k] == -1 || user[k] == line[k]
  }

  /** -1 has all 32 bits set, so a wildcard passes the written test for any line. */
  lemma AllOnes(x: int)
    ensures BitAnd(Bits(-1), Bits(x)) == Bits(x)
  {
    DivModUnique(-1, Pow2(32), -1, Pow2(32) - 1);
    BitAndOnes(32, Bits(x));
  }

  /** Every intended match also passes the written test. */
  lemma MatchesAsWritten(line: seq<int>, user: seq<int>)
    requires |line| == 6 && |user| == 6 && Matches(line, user)
    ensures IsEqualAsWritten(line, user)
  {
    forall k | 0 <= k < 6
      ensures BitAnd(Bits(user[k]), Bits(line[k])) == Bits(line[k])
    {
      if user[k] == -1 {
        AllOnes(line[k]);
      } else {
        BitAndSelf(Bits(line[k]));
      }
    }
  }

  /**
   * A range that gives only a year accepts exactly the lines of that year,
   * which the written test does not (IsEqualAsWrittenSubset).
   */
  lemma YearRangeMatches(line: seq<int>, year: int)
    requires |line| == 6 && year != -1
    ensures Matches(line, [year, -1, -1, -1, -1, -1]) <==> line[0] == year
  {
  }

  lemma Pow2Of32()
    ensures Pow2(32) == 0x1_0000_0000
  {
    assert Pow2(4) == 16;
    Pow2Add(4, 4);
    Pow2Add(8, 8);
    Pow2Add(16, 16);
  }

  /**
   * The written test also lets through lines outside the range: a user
   * year 2023 accepts a line of 2019, whose bits are a subset of 2023's.
   */
  lemma IsEqualAsWrittenSubset()
    ensures IsEqualAsWritten([2019, 1, 1, 0, 0, 0], [2023, -1, -1, -1, -1, -1])
    ensures !Matches([2019, 1, 1, 0, 0, 0], [2023, -1, -1, -1, -1, -1])
  {
    var line := [2019, 1, 1, 0, 0, 0];
    var user := [2023, -1, -1, -1, -1, -1];
    assert user[0] != line[0];
    Pow2Of32();
    assert Bits(2023) == 2023 && Bits(2019) == 2019;
    BitAndSelf(252);
    assert BitAnd(505, 504) == 504;
    assert BitAnd(1011, 1009) == 1009;
    assert BitAnd(2023, 2019) == 2019;
    forall k | 0 <= k < 6
      ensures BitAnd(Bits(user[k]), Bits(line[k])) == Bits(line[k])
    {
      if k > 0 {
        AllOnes(line[k]);
      }
    }
  }

  /**
   * The counts the two versions of index_tsv_line give for one line: a
   * query the intended test counts is counted as written too, and for the
   * user year 2023 a 2019 line is counted only as written.
   */
  lemma CountsAsWritten(line: seq<int>, user: seq<int>, counts: map<seq<char>, nat>, key: seq<char>)
    requires |line| == 6 && |user| == 6
    ensures Matches(line, user) ==>
      (if IsEqualAsWritten(line, user) then Bump(counts, key) else counts) == Bump(counts, key)
    ensures line == [2019, 1, 1, 0, 0, 0] && user == [2023, -1, -1, -1, -1, -1] ==>
      (if IsEqualAsWritten(line, user) then Bump(counts, key) else counts) == Bump(counts, key) &&
      (if Matches(line, user) then Bump(counts, key) else counts) == counts
  {
    if Matches(line, user) {
      MatchesAsWritten(line, user);
    }
    if line == [2019, 1, 1, 0, 0, 0] && user == [2023, -1, -1, -1, -1, -1] {
      IsEqualAsWrittenSubset();
    }
  }

  /** The end of the query from p: the first '\n', '\r' or NUL. */
  function QueryEnd(s: seq<char>, p: nat): (r: nat)
    requires p <= |s|
    ensures p <= r <= |s| && At(s, r) in {'\n', '\r', '\0'}
    decreases |s| - p
  {
    if At(s, p) in {'\n', '\r', '\0'} then p else QueryEnd(s, p + 1)
  }

  /** The end of the run of '\n' and '\r' from p. */
  function EolEnd(s: seq<char>, p: nat): (r: nat)
    requires p <= |s|
    ensures p <= r <= |s| && At(s, r) !in {'\n', '\r'}
    decreases |s| - p
  {
    if At(s, p) in {'\n', '\r'} then EolEnd(s, p + 1) else p
  }

  /** The buffer with positions [a, b) overwritten by NUL. */
  function Blanked(s: seq<char>, a: nat, b: nat): (r: seq<char>)
    requires a <= b <= |s|
    ensures |r| == |s| && r[..a] == s[..a] && r[b..] == s[b..]
    ensures forall k :: a <= k < b ==> r[k] == '\0'
  {
    s[..a] + seq(b - a, _ => '\0') + s[b..]
  }

  /**
   * A buffer whose last byte is a NUL: every scan of a C string in it stops
   * inside the array.
   */
  predicate Terminated(s: seq<char>)
  {
    |s| > 0 && s[|s| - 1] == '\0'
  }

  /** In a terminated buffer, skipping blanks stops before the end. */
  lemma {:induction false} SkipBlanksInside(s: seq<char>, p: nat)
    requires Terminated(s) && p < |s|
    ensures SkipBlanks(s, p) < |s|
    decreases |s| - p
  {
    if IsBlank(At(s, p)) {
      SkipBlanksInside(s, p + 1);
    }
  }

  /** In a terminated buffer, a run of digits ends before the end. */
  lemma {:induction false} DigitsEndInside(s: seq<char>, p: nat)
    requires Terminated(s) && p < |s|
    ensures DigitsEnd(s, p) < |s|
    decreases |s| - p
  {
    if IsDigit(At(s, p)) {
      DigitsEndInside(s, p + 1);
    }
  }

  /**
   * In a terminated buffer, parse_range from inside it leaves `end` inside
   * it: no scan runs past the NUL.
   */
  lemma {:induction false} ScanInside(s: seq<char>, p: nat, i: nat, date: seq<int>, next: Option<nat>)
    requires Terminated(s) && p < |s| && i < 6 && FieldsFrom(date)
    ensures Scan(s, p, i, date, next).end.value < |s|
    decreases 6 - i
  {
    SkipBlanksInside(s, p);
    DigitsEndInside(s, SkipBlanks(s, p));
    var t := ReadInt(s, p);
    if t.next == p && At(s, p) == '*' {
      var q := if At(s, p + 1) != '\0' then p + 2 else p + 1;
      if i + 1 < 6 {
        ScanInside(s, q, i + 1, date[i := -1], Some(t.next));
      }
    } else if t.next != p && At(s, t.next) != '\0' && i + 1 < 6 {
      ScanInside(s, t.next + 1, i + 1, date[i := t.value], Some(t.next));
    }
  }

  /** The query loop of index_tsv_line: from `query` to the first '\n', '\r' or NUL. */
  method FindQueryEnd(buf: array<char>, query: nat) returns (qe: nat)
    requires query < buf.Length && Terminated(buf[..])
    ensures qe == QueryEnd(buf[..], query) && qe < buf.Length
  {
    qe := query;
    while buf[qe] != '\n' && buf[qe] != '\r' && buf[qe] != '\0'
      invariant query <= qe < buf.Length && QueryEnd(buf[..], qe) == QueryEnd(buf[..], query)
      decreases buf.Length - qe
    {
      qe := qe + 1;
    }
  }

  /** The end-of-line loop of index_tsv_line: each '\n' and '\r' from qe on becomes NUL. */
  method BlankEol(buf: array<char>, qe: nat) returns (ee: nat)
    requires qe < buf.Length && Terminated(buf[..])
    modifies buf
    ensures ee == EolEnd(old(buf[..]), qe) && ee < buf.Length
    ensures buf[..] == Blanked(old(buf[..]), qe, ee)
  {
    ee := qe;
    while buf[ee] == '\n' || buf[ee] == '\r'
      invariant qe <= ee < buf.Length && EolEnd(old(buf[..]), ee) == EolEnd(old(buf[..]), qe)
      invariant buf[..] == Blanked(old(buf[..]), qe, ee)
      decreases buf.Length - ee
    {
      BlankedStep(old(buf[..]), qe, ee);
      buf[ee] := '\0';
      ee := ee + 1;
    }
  }

  /** Blanking one more position extends the blanked range by one. */
  lemma BlankedStep(s: seq<char>, a: nat, b: nat)
    requires a <= b < |s|
    ensures Blanked(s, a, b)[b := '\0'] == Blanked(s, a, b + 1)
  {
    assert s[b..] == [s[b]] + s[b + 1..];
    assert seq(b + 1 - a, _ => '\0') == seq(b - a, _ => '\0') + ['\0'];
  }

  /**
   * The NUL that ends the key lands where the blanked buffer already holds
   * one: on the first end-of-line character, or on the terminating NUL.
   */
  lemma NulAtQueryEnd(s: seq<char>, query: nat, qe: nat, ee: nat)
    requires query <= |s| && qe == QueryEnd(s, query) && ee == EolEnd(s, qe) && ee < |s|
    ensures Blanked(s, qe, ee)[qe := '\0'] == Blanked(s, qe, ee)
  {
    if qe == ee {
      assert At(s, qe) == '\0';
    }
  }

  /**
   * strmap_get then strmap_addv with n + 1: the key's count, 0 when absent,
   * rises by one.
   */
  function Bump(counts: map<seq<char>, nat>, key: seq<char>): (r: map<seq<char>, nat>)
    ensures r.Keys == counts.Keys + {key} && r[key] > 0
  {
    counts[key := (if key in counts then counts[key] else 0) + 1]
  }

  /**
   * Bump raises the key's count by exactly one (from 0 when it is absent)
   * and leaves every other query's count as it was.
   */
  lemma BumpCounts(counts: map<seq<char>, nat>, key: seq<char>, other: seq<char>)
    requires other != key
    ensures key in Bump(counts, key) && Bump(counts, key)[key] == (if key in counts then counts[key] else 0) + 1
    ensures other in Bump(counts, key) <==> other in counts
    ensures other in counts ==> Bump(counts, key)[other] == counts[other]
  {
  }

  /** The qex state index_tsv_line works on. */
  class Qex {
    /** The range given with -r; all -1 when there is none. */
    var userRange: Range
    /** The timestamp of the line parsed last. */
    var range: Range
    /** How many times each query was seen in range. */
    var counts: map<seq<char>, nat>

    /**
     * qex_init: the user's range is parsed (a NULL range leaves all six
     * fields -1) and no query is counted yet.
     */
    constructor (user: Option<seq<char>>)
      ensures user.None? ==> userRange == Range(Unset, None)
      ensures user.Some? ==> userRange == Parsed(user.value, 0)
      ensures FieldsFrom(userRange.date) && counts == map[]
    {
      var r := Range(Unset, None);
      if user.Some? {
        r := ParseRange(user.value, 0);
      }
      userRange := r;
      range := Range(Unset, None);
      counts := map[];
    }

    /**
     * index_tsv_line on the line that starts at `start`: the timestamp is
     * parsed; unless a tab follows it, the result is NULL and nothing else
     * changes.  Otherwise the query runs to the first '\n', '\r' or NUL,
     * the end-of-line characters after it are overwritten with NUL, the
     * query's count rises by exactly 1 when the timestamp matches the
     * user's range and stays otherwise, and the result is the position
     * after the end-of-line characters, or NULL at the end of the buffer.
     */
    method IndexTsvLine(buf: array<char>, start: nat) returns (next: Option<nat>)
      requires start < buf.Length && Terminated(buf[..]) && FieldsFrom(userRange.date)
      modifies this`range, this`counts, buf
      ensures range == Parsed(old(buf[..]), start) && range.end.Some?
      ensures At(old(buf[..]), range.end.value) != '\t' ==>
        next == None && buf[..] == old(buf[..]) && counts == old(counts)
      ensures At(old(buf[..]), range.end.value) == '\t' ==>
        var s := old(buf[..]);
        var query := range.end.value + 1;
        var qe := QueryEnd(s, query);
        var ee := EolEnd(s, qe);
        var key := s[query..qe];
        buf[..] == Blanked(s, qe, ee) &&
        counts == (if Matches(range.date, userRange.date) then Bump(old(counts), key) else old(counts)) &&
        next == (if At(s, ee) != '\0' then Some(ee) else None)
    {
      var r := ParseRange(buf[..], start);
      range := r;
      var line := r.end.value;
      ScanInside(buf[..], start, 0, Unset, None);
      if buf[line] != '\t' {
        return None;
      }
      next := IndexQuery(buf, line + 1, Matches(r.date, userRange.date));
    }

    /**
     * index_tsv_line as written: the same steps as IndexTsvLine, but the
     * query is counted when qex_is_equal's bit-subset test passes, which also
     * lets through lines outside the user's range (IsEqualAsWrittenSubset).
     */
    method IndexTsvLineAsWritten(buf: array<char>, start: nat) returns (next: Option<nat>)
      requires start < buf.Length && Terminated(buf[..]) && FieldsFrom(userRange.date)
      modifies this`range, this`counts, buf
      ensures range == Parsed(old(buf[..]), start) && range.end.Some?
      ensures At(old(buf[..]), range.end.value) != '\t' ==>
        next == None && buf[..] == old(buf[..]) && counts == old(counts)
      ensures At(old(buf[..]), range.end.value) == '\t' ==>
        var s := old(buf[..]);
        var query := range.end.value + 1;
        var qe := QueryEnd(s, query);
        var ee := EolEnd(s, qe);
        var key := s[query..qe];
        buf[..] == Blanked(s, qe, ee) &&
        counts == (if IsEqualAsWritten(range.date, userRange.date) then Bump(old(counts), key) else old(counts)) &&
        next == (if At(s, ee) != '\0' then Some(ee) else None)
    {
      var r := ParseRange(buf[..], start);
      range := r;
      var line := r.end.value;
      ScanInside(buf[..], start, 0, Unset, None);
      if buf[line] != '\t' {
        return None;
      }
      next := IndexQuery(buf, line + 1, IsEqualAsWritten(r.date, userRange.date));
    }

    /**
     * index_tsv_line after the tab, from `query`: the query runs to the
     * first '\n', '\r' or NUL, the end-of-line characters after it become
     * NUL, a matched line's query is counted once more, and the result is
     * the position after the end-of-line characters, or NULL at the end of
     * the buffer.
     */
    method IndexQuery(buf: array<char>, query: nat, matched: bool) returns (next: Option<nat>)
      requires query < buf.Length && Terminated(buf[..])
      modifies this`counts, buf
      ensures var s := old(buf[..]); var qe := QueryEnd(s, query); var ee := EolEnd(s, qe);
        buf[..] == Blanked(s, qe, ee) &&
        counts == (if matched then Bump(old(counts), s[query..qe]) else old(counts)) &&
        next == (if At(s, ee) != '\0' then Some(ee) else None)
    {
      ghost var s := buf[..];
      var qe := FindQueryEnd(buf, query);
      var querySize := qe - query;
      // The query's bytes, which the end-of-line loop does not touch.
      var key := buf[query..query + querySize];
      var ee := BlankEol(buf, qe);
      if matched {
        NulAtQueryEnd(s, query, qe, ee);
        buf[query + querySize] := '\0';
        var n := if key in counts then counts[key] else 0;
        counts := counts[key := n + 1];
      }
      assert buf[ee] == s[ee];
      next := if buf[ee] != '\0' then Some(ee) else None;
    }
  }

}
