/**
 Which input a format of `matchv` matches, said without following the code: a reading is a series of
 points, each a place in the input, a place in the format and the values read so far, and each point
 follows from the one before by one element of the format.
 */
module MatchMeans {
  import opened Words
  import opened MatchSpec
  import Print = PrintkSpec

  // ---------------------------------------------------------------- characters

  predicate LineEnd(b: Byte) { b == 13 || b == 10 }

  predicate Blank(b: Byte) { b == 32 || b == 9 }

  predicate Letter(b: Byte) { 65 <= b <= 90 || 97 <= b <= 122 }

  predicate Figure(b: Byte) { 48 <= b <= 57 }

  /** From `p` only blanks up to the character at `b`. */
  ghost predicate BlanksTo(t: seq<Byte>, p: nat, b: nat)
  {
    p <= b < |t| && !Blank(t[b]) && forall k :: p <= k < b ==> Blank(t[k])
  }

  // ---------------------------------------------------------------- the elements of a format

  datatype Point = Point(at: nat, i: nat, values: seq<Value>)

  /** The format goes on, and the line does. */
  predicate OnLine(t: seq<Byte>, fmt: seq<Byte>, a: Point)
  {
    a.i < |fmt| && !LineEnd(fmt[a.i]) && a.at < |t| && !LineEnd(t[a.at])
  }

  predicate AtLiteral(fmt: seq<Byte>, i: nat)
  {
    i < |fmt| && fmt[i] != 32 && fmt[i] != 37
  }

  predicate AtConversion(fmt: seq<Byte>, i: nat, kind: Byte)
  {
    i + 1 < |fmt| && fmt[i] == 37 && fmt[i + 1] == kind
  }

  /** A blank in the format stands for nothing. */
  ghost predicate ReadsBlank(fmt: seq<Byte>, a: Point, b: Point)
  {
    a.i < |fmt| && fmt[a.i] == 32 && b == a.(i := a.i + 1)
  }

  /** A character stands for itself, with any blanks before it. */
  ghost predicate ReadsLiteral(t: seq<Byte>, fmt: seq<Byte>, a: Point, b: Point)
  {
    && AtLiteral(fmt, a.i) && b.at > 0 && BlanksTo(t, a.at, b.at - 1) && t[b.at - 1] == fmt[a.i]
    && b.i == a.i + 1 && b.values == a.values
  }

  /** The figures from `s` to `e`, all that stand there, denote a number, which wraps at 2^32. */
  ghost predicate ReadsNumber(t: seq<Byte>, a: Point, b: Point, s: nat)
  {
    && BlanksTo(t, a.at, s) && s < b.at < |t| && Print.IsNumeral(10, t[s..b.at]) && !Figure(t[b.at])
    && b.i == a.i + 2 && b.values == a.values + [Number(Print.Denotes(10, t[s..b.at]) % 4294967296)]
  }

  /** Fewer than 32 characters between quotes. */
  ghost predicate ReadsText(t: seq<Byte>, a: Point, b: Point, s: nat)
  {
    && BlanksTo(t, a.at, s) && t[s] == 34 && s + 1 < b.at <= |t| && t[b.at - 1] == 34
    && 34 !in t[s + 1..b.at - 1] && b.at - s - 2 < 32
    && b.i == a.i + 2 && b.values == a.values + [Text(t[s + 1..b.at - 1])]
  }

  ghost predicate Follows(t: seq<Byte>, fmt: seq<Byte>, a: Point, b: Point)
  {
    && OnLine(t, fmt, a)
    && (|| ReadsBlank(fmt, a, b)
        || ReadsLiteral(t, fmt, a, b)
        || (AtConversion(fmt, a.i, 117) && exists s: nat :: ReadsNumber(t, a, b, s))
        || (AtConversion(fmt, a.i, 115) && exists s: nat :: ReadsText(t, a, b, s)))
  }

  /** A series of points from the start `c` of the line on. */
  ghost predicate Reading(t: seq<Byte>, c: nat, fmt: seq<Byte>, ps: seq<Point>)
  {
    && ps != [] && ps[0] == Point(c, 0, [])
    && forall k :: 0 <= k < |ps| - 1 ==> Follows(t, fmt, ps[k], ps[k + 1])
  }

  function Last(ps: seq<Point>): Point
    requires ps != []
  {
    ps[|ps| - 1]
  }

  // ---------------------------------------------------------------- where a reading cannot go on

  /** The line ends before the format does. */
  predicate LineOver(t: seq<Byte>, fmt: seq<Byte>, a: Point)
  {
    a.i < |fmt| && !LineEnd(fmt[a.i]) && a.at < |t| && LineEnd(t[a.at])
  }

  /** The character that stands there is not one the format element can begin with. */
  ghost predicate Differs(t: seq<Byte>, fmt: seq<Byte>, a: Point)
  {
    && OnLine(t, fmt, a)
    && exists s: nat :: BlanksTo(t, a.at, s) &&
         (|| (AtLiteral(fmt, a.i) && t[s] != fmt[a.i])
          || (AtConversion(fmt, a.i, 117) && !Figure(t[s]))
          || (AtConversion(fmt, a.i, 115) && t[s] != 34))
  }

  /** A line end in the format, or a `%` without a kind that is known. */
  predicate Illegal(t: seq<Byte>, fmt: seq<Byte>, a: Point)
  {
    && a.i < |fmt|
    && (|| LineEnd(fmt[a.i])
        || (OnLine(t, fmt, a) && fmt[a.i] == 37 && !AtConversion(fmt, a.i, 117) && !AtConversion(fmt, a.i, 115)))
  }

  /** A quote with 32 characters behind it, none of which closes it. */
  ghost predicate Unclosed(t: seq<Byte>, fmt: seq<Byte>, a: Point)
  {
    && OnLine(t, fmt, a) && AtConversion(fmt, a.i, 115)
    && exists s: nat :: BlanksTo(t, a.at, s) && t[s] == 34 && s + 33 <= |t| && 34 !in t[s + 1..s + 33]
  }

  /** One of the first `n` points is at a `%` behind the beginning of the format. */
  ghost predicate Committed(fmt: seq<Byte>, ps: seq<Point>, n: nat)
  {
    exists k :: 0 <= k < n && k < |ps| && 0 < ps[k].i < |fmt| && fmt[ps[k].i] == 37
  }

  // ---------------------------------------------------------------- one element

  lemma BlanksIff(t: seq<Byte>, p: nat, b: nat)
    requires p <= |t|
    ensures BlanksTo(t, p, b) <==> b < |t| && AfterSpaces(t, p) == b
  {
    hide AfterSpaces;
    var q := AfterSpaces(t, p);
    if BlanksTo(t, p, b) {
      assert !(q < b) && !(b < q);
    }
  }

  lemma NumeralIsDigits(t: seq<Byte>, s: nat, e: nat)
    requires s <= e <= |t|
    ensures Print.IsNumeral(10, t[s..e]) <==> forall k :: s <= k < e ==> IsDigit(t[k])
  {
    if Print.IsNumeral(10, t[s..e]) {
      forall k | s <= k < e
        ensures IsDigit(t[k])
      {
        assert t[s..e][k - s] == t[k];
        assert 0 <= Print.DigitValue(t[s..e][k - s]) < 10;
      }
    }
  }

  lemma {:induction false} NumberIff(t: seq<Byte>, a: Point, b: Point)
    requires a.at <= |t|
    ensures var (v, w) := Uint(t, a.at);
            (exists s: nat :: ReadsNumber(t, a, b, s)) <==>
            v.Matched? && b == Point(v.end, a.i + 2, a.values + [Number(w)])
  {
    hide AfterSpaces;
    hide AfterDigits;
    hide Decimal;
    hide Print.Denotes;
    var (v, w) := Uint(t, a.at);
    var q := AfterSpaces(t, a.at);
    var e := AfterDigits(t, q);
    BlanksIff(t, a.at, q);
    NumeralIsDigits(t, q, e);
    Print.DecimalIsDenotes(t[q..e]);
    if v.Matched? && b == Point(v.end, a.i + 2, a.values + [Number(w)]) {
      assert ReadsNumber(t, a, b, q);
    }
    if s: nat :| ReadsNumber(t, a, b, s) {
      BlanksIff(t, a.at, s);
      NumeralIsDigits(t, s, b.at);
      assert e == b.at;
    }
  }

  lemma NoNumberIff(t: seq<Byte>, p: nat)
    requires p <= |t|
    ensures Uint(t, p).0 == NoMatch <==> exists s: nat :: BlanksTo(t, p, s) && !Figure(t[s])
    ensures Uint(t, p).0 == NoMatch ==> Uint(t, p).1 == 0
    ensures Uint(t, p).0 != Aborts && Uint(t, p).0 != Overflows
  {
    hide AfterSpaces;
    hide AfterDigits;
    var q := AfterSpaces(t, p);
    var e := AfterDigits(t, q);
    BlanksIff(t, p, q);
    if Uint(t, p).0 == NoMatch {
      assert BlanksTo(t, p, q) && !Figure(t[q]);
      assert t[q..e] == [];
    }
    if s: nat :| BlanksTo(t, p, s) && !Figure(t[s]) {
      BlanksIff(t, p, s);
    }
  }

  lemma {:induction false} QuoteIff(t: seq<Byte>, k: nat, n: nat, e: nat)
    requires k <= |t|
    ensures ClosingQuote(t, k, n) == Matched(e) <==> k < e <= |t| && e <= k + n && t[e - 1] == 34 && 34 !in t[k..e - 1]
    decreases n
  {
    if n > 0 && k < |t| && t[k] != QUOTE {
      QuoteIff(t, k + 1, n - 1, e);
      if k + 1 < e <= |t| {
        assert t[k..e - 1] == [t[k]] + t[k + 1..e - 1];
      }
    } else if n > 0 && k < |t| && k + 1 < e <= |t| {
      assert t[k] in t[k..e - 1];
    }
  }

  lemma {:induction false} NoQuoteIff(t: seq<Byte>, k: nat, n: nat)
    requires k <= |t|
    ensures ClosingQuote(t, k, n) == Aborts <==> k + n <= |t| && 34 !in t[k..k + n]
    decreases n
  {
    if n > 0 && k < |t| {
      if t[k] != QUOTE {
        NoQuoteIff(t, k + 1, n - 1);
      }
      if k + n <= |t| {
        assert t[k..k + n] == [t[k]] + t[k + 1..k + 1 + (n - 1)];
      }
    }
  }

  lemma TextRead(t: seq<Byte>, a: Point, b: Point, s: nat)
    requires a.at <= |t| && ReadsText(t, a, b, s)
    ensures Literal(t, a.at, 32) == (Matched(b.at), t[s + 1..b.at - 1])
  {
    hide AfterSpaces;
    hide ClosingQuote;
    BlanksIff(t, a.at, s);
    QuoteIff(t, s + 1, 32, b.at);
  }

  lemma ReadText(t: seq<Byte>, a: Point)
    requires a.at <= |t|
    ensures var (v, w) := Literal(t, a.at, 32);
            v.Matched? ==> ReadsText(t, a, Point(v.end, a.i + 2, a.values + [Text(w)]), AfterSpaces(t, a.at))
  {
    hide AfterSpaces;
    hide ClosingQuote;
    var q := AfterSpaces(t, a.at);
    BlanksIff(t, a.at, q);
  }

  lemma {:induction false} TextIff(t: seq<Byte>, a: Point, b: Point)
    requires a.at <= |t|
    ensures var (v, w) := Literal(t, a.at, 32);
            (exists s: nat :: ReadsText(t, a, b, s)) <==>
            v.Matched? && b == Point(v.end, a.i + 2, a.values + [Text(w)])
  {
    hide Literal;
    hide AfterSpaces;
    ReadText(t, a);
    if s: nat :| ReadsText(t, a, b, s) {
      TextRead(t, a, b, s);
    }
  }

  lemma {:induction false} NoTextIff(t: seq<Byte>, p: nat)
    requires p <= |t|
    ensures Literal(t, p, 32).0 == NoMatch <==> exists s: nat :: BlanksTo(t, p, s) && t[s] != 34
    ensures Literal(t, p, 32).0 == Aborts <==>
            exists s: nat :: BlanksTo(t, p, s) && t[s] == 34 && s + 33 <= |t| && 34 !in t[s + 1..s + 33]
    ensures Literal(t, p, 32).0 != Overflows
  {
    hide AfterSpaces;
    hide ClosingQuote;
    var q := AfterSpaces(t, p);
    BlanksIff(t, p, q);
    if q < |t| {
      NoQuoteIff(t, q + 1, 32);
      assert BlanksTo(t, p, q);
    }
    if s: nat :| BlanksTo(t, p, s) {
      BlanksIff(t, p, s);
    }
  }

  lemma LiteralIff(t: seq<Byte>, fmt: seq<Byte>, a: Point, b: Point)
    requires a.at <= |t| && AtLiteral(fmt, a.i)
    ensures var v := PlainChar(t, a.at, fmt[a.i]);
            ReadsLiteral(t, fmt, a, b) <==> v.Matched? && b == Point(v.end, a.i + 1, a.values)
  {
    hide AfterSpaces;
    BlanksIff(t, a.at, AfterSpaces(t, a.at));
    if b.at > 0 {
      BlanksIff(t, a.at, b.at - 1);
    }
  }

  lemma NoLiteralIff(t: seq<Byte>, p: nat, ch: Byte)
    requires p <= |t|
    ensures PlainChar(t, p, ch) == NoMatch <==> exists s: nat :: BlanksTo(t, p, s) && t[s] != ch
    ensures PlainChar(t, p, ch) != Aborts && PlainChar(t, p, ch) != Overflows
  {
    hide AfterSpaces;
    BlanksIff(t, p, AfterSpaces(t, p));
    if s: nat :| BlanksTo(t, p, s) && t[s] != ch {
      BlanksIff(t, p, s);
    }
  }

  /** The points that follow are those the code goes on to. */
  lemma FollowsIff(t: seq<Byte>, fmt: seq<Byte>, a: Point, b: Point)
    requires a.at <= |t| && a.i < |fmt|
    ensures var d := DirectiveAt(t, a.at, fmt, a.i);
            Follows(t, fmt, a, b) <==> d.verdict.Matched? && b == Point(d.verdict.end, d.next, a.values + d.values)
  {
    hide Uint;
    hide Literal;
    hide PlainChar;
    hide ReadsNumber;
    hide ReadsText;
    hide ReadsLiteral;
    if OnLine(t, fmt, a) {
      assert a.values + [] == a.values;
      if fmt[a.i] == 32 {
        assert !ReadsLiteral(t, fmt, a, b) by { NotLiteral(t, fmt, a, b); }
      } else if fmt[a.i] != 37 {
        LiteralIff(t, fmt, a, b);
      } else {
        assert !ReadsLiteral(t, fmt, a, b) by { NotLiteral(t, fmt, a, b); }
        NumberIff(t, a, b);
        TextIff(t, a, b);
      }
    }
  }

  lemma NotLiteral(t: seq<Byte>, fmt: seq<Byte>, a: Point, b: Point)
    requires !AtLiteral(fmt, a.i)
    ensures !ReadsLiteral(t, fmt, a, b)
  {
  }

  lemma FailsIff(t: seq<Byte>, fmt: seq<Byte>, a: Point)
    requires a.at <= |t| && a.i < |fmt|
    ensures DirectiveAt(t, a.at, fmt, a.i).verdict == NoMatch <==> LineOver(t, fmt, a) || Differs(t, fmt, a)
  {
    hide Uint;
    hide Literal;
    hide PlainChar;
    hide BlanksTo;
    if OnLine(t, fmt, a) {
      NoLiteralIff(t, a.at, fmt[a.i]);
      NoNumberIff(t, a.at);
      NoTextIff(t, a.at);
    }
  }

  lemma PanicsIff(t: seq<Byte>, fmt: seq<Byte>, a: Point)
    requires a.at <= |t| && a.i < |fmt|
    ensures DirectiveAt(t, a.at, fmt, a.i).verdict == Aborts <==> Illegal(t, fmt, a) || Unclosed(t, fmt, a)
    ensures DirectiveAt(t, a.at, fmt, a.i).verdict != Overflows
  {
    hide Uint;
    hide Literal;
    hide PlainChar;
    hide BlanksTo;
    if OnLine(t, fmt, a) {
      NoLiteralIff(t, a.at, fmt[a.i]);
      NoNumberIff(t, a.at);
      NoTextIff(t, a.at);
    }
  }

  // ---------------------------------------------------------------- whole formats

  lemma CommittedNext(fmt: seq<Byte>, ps: seq<Point>, n: nat)
    requires n < |ps|
    ensures Committed(fmt, ps, n + 1) <==> Committed(fmt, ps, n) || (0 < ps[n].i < |fmt| && fmt[ps[n].i] == 37)
  {
    if k :| 0 <= k < n + 1 && k < |ps| && 0 < ps[k].i < |fmt| && fmt[ps[k].i] == 37 {
      assert k == n || Committed(fmt, ps, n);
    }
  }

  /** What the code still has to do at the end of a reading. */
  ghost function Rest(t: seq<Byte>, fmt: seq<Byte>, a: Point, must: bool): Outcome
    requires a.at <= |t| && a.i <= |fmt|
  {
    FormatFrom(t, a.at, fmt, a.i, must, a.values)
  }

  lemma FollowOne(t: seq<Byte>, fmt: seq<Byte>, a: Point, b: Point, must: bool)
    requires a.at <= |t| && a.i <= |fmt| && Follows(t, fmt, a, b)
    ensures b.at <= |t| && b.i <= |fmt|
    ensures Rest(t, fmt, a, must) == Rest(t, fmt, b, must || (0 < a.i < |fmt| && fmt[a.i] == 37))
  {
    hide Follows;
    hide Uint;
    hide Literal;
    hide PlainChar;
    assert a.i < |fmt| by { FollowsOnLine(t, fmt, a, b); }
    FollowsIff(t, fmt, a, b);
  }

  lemma FollowsOnLine(t: seq<Byte>, fmt: seq<Byte>, a: Point, b: Point)
    requires Follows(t, fmt, a, b)
    ensures OnLine(t, fmt, a)
  {
  }

  /** The code is at the end of every reading, having met what the reading met. */
  lemma {:induction false} Follow(t: seq<Byte>, c: nat, fmt: seq<Byte>, ps: seq<Point>, n: nat)
    requires c <= |t| && Reading(t, c, fmt, ps) && n < |ps|
    ensures ps[n].at <= |t| && ps[n].i <= |fmt|
    ensures FormatFrom(t, c, fmt, 0, false, []) == Rest(t, fmt, ps[n], Committed(fmt, ps, n))
    decreases n
  {
    hide Follows;
    hide Rest;
    if n == 0 {
      assert !Committed(fmt, ps, 0);
      RestAtStart(t, c, fmt);
    } else {
      Follow(t, c, fmt, ps, n - 1);
      assert Follows(t, fmt, ps[n - 1], ps[n - 1 + 1]);
      FollowOne(t, fmt, ps[n - 1], ps[n], Committed(fmt, ps, n - 1));
      CommittedNext(fmt, ps, n - 1);
    }
  }

  lemma RestAtStart(t: seq<Byte>, c: nat, fmt: seq<Byte>)
    requires c <= |t|
    ensures Rest(t, fmt, Point(c, 0, []), false) == FormatFrom(t, c, fmt, 0, false, [])
  {
  }

  /** The reading cannot go on: the format is done, or the code stops in its next element. */
  ghost predicate Ends(t: seq<Byte>, fmt: seq<Byte>, a: Point)
  {
    a.at <= |t| && a.i <= |fmt| && (a.i == |fmt| || !DirectiveAt(t, a.at, fmt, a.i).verdict.Matched?)
  }

  lemma {:induction false} ReadingGrows(t: seq<Byte>, c: nat, fmt: seq<Byte>, ps: seq<Point>) returns (qs: seq<Point>)
    requires c <= |t| && Reading(t, c, fmt, ps) && Last(ps).at <= |t| && Last(ps).i <= |fmt|
    ensures Reading(t, c, fmt, qs) && Ends(t, fmt, Last(qs))
    decreases |fmt| - Last(ps).i
  {
    hide Follows;
    hide DirectiveAt;
    var a := Last(ps);
    qs := ps;
    if a.i < |fmt| && DirectiveAt(t, a.at, fmt, a.i).verdict.Matched? {
      var d := DirectiveAt(t, a.at, fmt, a.i);
      var b := Point(d.verdict.end, d.next, a.values + d.values);
      FollowsIff(t, fmt, a, b);
      var rs := ps + [b];
      forall k | 0 <= k < |rs| - 1
        ensures Follows(t, fmt, rs[k], rs[k + 1])
      {
        if k < |ps| - 1 {
          assert Follows(t, fmt, ps[k], ps[k + 1]);
        }
      }
      qs := ReadingGrows(t, c, fmt, rs);
    }
  }

  /** A reading and how the code ends there. */
  ghost predicate Matches(t: seq<Byte>, c: nat, fmt: seq<Byte>, ps: seq<Point>, e: nat, vs: seq<Value>)
  {
    Reading(t, c, fmt, ps) && Last(ps) == Point(e, |fmt|, vs)
  }

  ghost predicate FailsAt(t: seq<Byte>, c: nat, fmt: seq<Byte>, ps: seq<Point>, must: bool)
  {
    && Reading(t, c, fmt, ps)
    && (|| (LineOver(t, fmt, Last(ps)) && must == Committed(fmt, ps, |ps| - 1))
        || (Differs(t, fmt, Last(ps)) && must == Committed(fmt, ps, |ps|)))
  }

  ghost predicate PanicsAt(t: seq<Byte>, c: nat, fmt: seq<Byte>, ps: seq<Point>)
  {
    Reading(t, c, fmt, ps) && (Illegal(t, fmt, Last(ps)) || Unclosed(t, fmt, Last(ps)))
  }

  lemma AtEnd(t: seq<Byte>, fmt: seq<Byte>, ps: seq<Point>)
    requires ps != [] && Last(ps).at <= |t| && Last(ps).i < |fmt|
    ensures var a, d, n := Last(ps), DirectiveAt(t, Last(ps).at, fmt, Last(ps).i), |ps| - 1;
            && (LineOver(t, fmt, a) ==> !Differs(t, fmt, a) && Committed(fmt, ps, n) == (Committed(fmt, ps, n) || d.strict))
            && (Differs(t, fmt, a) ==> Committed(fmt, ps, n + 1) == (Committed(fmt, ps, n) || d.strict))
  {
    hide Uint;
    hide Literal;
    hide PlainChar;
    hide Committed;
    CommittedNext(fmt, ps, |ps| - 1);
  }

  lemma {:induction false} OutcomeAtEnd(t: seq<Byte>, c: nat, fmt: seq<Byte>, ps: seq<Point>)
    requires c <= |t| && Reading(t, c, fmt, ps)
    ensures var v := FormatFrom(t, c, fmt, 0, false, []).verdict;
            && (Last(ps).i == |fmt| ==> FormatFrom(t, c, fmt, 0, false, []) == Outcome(Matched(Last(ps).at), Last(ps).values))
            && (FailsAt(t, c, fmt, ps, false) ==> v == NoMatch)
            && (FailsAt(t, c, fmt, ps, true) ==> v == Aborts)
            && (PanicsAt(t, c, fmt, ps) ==> v == Aborts)
            && (Ends(t, fmt, Last(ps)) && Last(ps).i < |fmt| && v == NoMatch ==> FailsAt(t, c, fmt, ps, false))
            && (Ends(t, fmt, Last(ps)) && Last(ps).i < |fmt| && v == Aborts ==>
                  FailsAt(t, c, fmt, ps, true) || PanicsAt(t, c, fmt, ps))
            && (Ends(t, fmt, Last(ps)) && Last(ps).i < |fmt| ==> !v.Matched?)
  {
    hide Committed;
    hide DirectiveAt;
    hide LineOver;
    hide Differs;
    hide Illegal;
    hide Unclosed;
    Follow(t, c, fmt, ps, |ps| - 1);
    hide Reading;
    var a := Last(ps);
    if a.i < |fmt| {
      FailsIff(t, fmt, a);
      PanicsIff(t, fmt, a);
      AtEnd(t, fmt, ps);
    } else {
      NothingLeft(t, fmt, a);
    }
  }

  lemma NothingLeft(t: seq<Byte>, fmt: seq<Byte>, a: Point)
    requires a.i == |fmt|
    ensures !LineOver(t, fmt, a) && !Differs(t, fmt, a) && !Illegal(t, fmt, a) && !Unclosed(t, fmt, a)
  {
  }

  /**
   From the start `c` of a line, the format matches up to `e` with values `vs` if and only if its
   elements read the input up to there: literals in order with any blanks before each, at each `%u` a
   run of figures denoting its value, at each `%s` a quoted text of fewer than 32 characters.  It does
   not match if and only if a reading meets a line end or a character that differs and no `%` behind
   the first place of the format has been met; it panics if and only if one has, or the format is
   illegal there, or a quote is not closed.
   */
  lemma {:induction false} FormatMeans(t: seq<Byte>, c: nat, fmt: seq<Byte>, e: nat, vs: seq<Value>)
    requires c < |t|
    ensures FormatAt(t, c, fmt) == Outcome(Matched(e), vs) <==> exists ps :: Matches(t, c, fmt, ps, e, vs)
    ensures FormatAt(t, c, fmt).verdict == NoMatch <==> exists ps :: FailsAt(t, c, fmt, ps, false)
    ensures FormatAt(t, c, fmt).verdict == Aborts <==>
            (exists ps :: FailsAt(t, c, fmt, ps, true)) || (exists ps :: PanicsAt(t, c, fmt, ps))
  {
    hide FormatFrom;
    hide FailsAt;
    hide PanicsAt;
    var o := FormatAt(t, c, fmt);
    var start := [Point(c, 0, [])];
    var qs := ReadingGrows(t, c, fmt, start);
    OutcomeAtEnd(t, c, fmt, qs);
    assert o == Outcome(Matched(e), vs) ==> Matches(t, c, fmt, qs, e, vs);
    if ps :| Matches(t, c, fmt, ps, e, vs) {
      OutcomeAtEnd(t, c, fmt, ps);
    }
    forall ps, must | FailsAt(t, c, fmt, ps, must)
      ensures o.verdict == if must then Aborts else NoMatch
    {
      assert Reading(t, c, fmt, ps) by { ReadingOf(t, c, fmt, ps, must); }
      OutcomeAtEnd(t, c, fmt, ps);
    }
    forall ps | PanicsAt(t, c, fmt, ps)
      ensures o.verdict == Aborts
    {
      assert Reading(t, c, fmt, ps) by { ReadingOf(t, c, fmt, ps, true); }
      OutcomeAtEnd(t, c, fmt, ps);
    }
  }

  lemma ReadingOf(t: seq<Byte>, c: nat, fmt: seq<Byte>, ps: seq<Point>, must: bool)
    requires FailsAt(t, c, fmt, ps, must) || PanicsAt(t, c, fmt, ps)
    ensures Reading(t, c, fmt, ps)
  {
  }

  /** What a failed format has written: the values read before, and 0 where a number was wanted. */
  lemma {:induction false} FailureWrites(t: seq<Byte>, c: nat, fmt: seq<Byte>, ps: seq<Point>, must: bool)
    requires c < |t| && FailsAt(t, c, fmt, ps, must)
    ensures var a := Last(ps);
            FormatAt(t, c, fmt).written ==
            a.values + (if OnLine(t, fmt, a) && AtConversion(fmt, a.i, 117) then [Number(0)] else [])
  {
    hide Committed;
    hide Uint;
    hide Literal;
    hide PlainChar;
    hide BlanksTo;
    hide Follows;
    var a := Last(ps);
    Follow(t, c, fmt, ps, |ps| - 1);
    FailsIff(t, fmt, a);
    NoNumberIff(t, a.at);
    NoTextIff(t, a.at);
  }

  // ---------------------------------------------------------------- where matching starts, and tokens

  /** Both matchers start at the first character that is neither blank nor a line end. */
  lemma {:induction false} StartMeans(t: seq<Byte>, p: nat, c: nat)
    requires p <= c <= |t|
    ensures Start(t, p) == c <==>
            && (forall k :: p <= k < c ==> Blank(t[k]) || LineEnd(t[k]))
            && (c < |t| ==> !Blank(t[c]) && !LineEnd(t[c]))
  {
    hide AfterSpaces;
    hide AfterBlankLines;
    StartSkips(t, p);
    var q := Start(t, p);
    if q < c {
      assert !Blank(t[q]) && !LineEnd(t[q]);
    }
  }

  lemma {:induction false} StartSkips(t: seq<Byte>, p: nat)
    requires p <= |t|
    ensures var q := Start(t, p);
            && (forall k :: p <= k < q ==> Blank(t[k]) || LineEnd(t[k]))
            && (q < |t| ==> !Blank(t[q]) && !LineEnd(t[q]))
    decreases |t| - p
  {
    hide AfterSpaces;
    var e := AfterSpaces(t, p);
    if e < |t| && IsEol(t[e]) {
      StartSkips(t, e + 1);
    }
  }

  /** The first `i` characters of the token stand there. */
  ghost predicate Agree(t: seq<Byte>, c: nat, tok: seq<Byte>, i: nat)
  {
    c + i <= |t| && i <= |tok| && t[c..c + i] == tok[..i]
  }

  /** A character that differs, or a whole token ending in a letter with a letter behind it. */
  ghost predicate Refused(t: seq<Byte>, c: nat, tok: seq<Byte>, i: nat)
  {
    && tok != [] && Agree(t, c, tok, i) && c + i < |t|
    && if i < |tok| then t[c + i] != tok[i] else Letter(tok[i - 1]) && Letter(t[c + i])
  }

  lemma AgreeMore(t: seq<Byte>, c: nat, tok: seq<Byte>, i: nat)
    requires Agree(t, c, tok, i) && c + i < |t| && i < |tok|
    ensures Agree(t, c, tok, i + 1) <==> t[c + i] == tok[i]
  {
    assert t[c..c + i + 1] == t[c..c + i] + [t[c + i]];
    assert tok[..i + 1] == tok[..i] + [tok[i]];
  }

  lemma AgreeLess(t: seq<Byte>, c: nat, tok: seq<Byte>, i: nat, j: nat)
    requires Agree(t, c, tok, j) && i <= j
    ensures Agree(t, c, tok, i) && (i < j ==> t[c + i] == tok[i])
  {
    assert t[c..c + i] == t[c..c + j][..i] == tok[..j][..i] == tok[..i];
    if i < j {
      assert t[c + i] == t[c..c + j][i] == tok[..j][i];
    }
  }

  lemma {:induction false} TokenRefusedFrom(t: seq<Byte>, c: nat, tok: seq<Byte>, i: nat)
    requires tok != [] && Agree(t, c, tok, i)
    ensures TokenFrom(t, c, tok, i) == NoMatch ==> exists k: nat :: Refused(t, c, tok, k)
    ensures TokenFrom(t, c, tok, i) != Aborts && TokenFrom(t, c, tok, i) != Overflows
    decreases |tok| - i
  {
    if i < |tok| && c + i < |t| && t[c + i] == tok[i] {
      AgreeMore(t, c, tok, i);
      TokenRefusedFrom(t, c, tok, i + 1);
    } else if TokenFrom(t, c, tok, i) == NoMatch {
      assert Refused(t, c, tok, i);
    }
  }

  lemma {:induction false} RefusedIsNoMatch(t: seq<Byte>, c: nat, tok: seq<Byte>, i: nat, k: nat)
    requires Refused(t, c, tok, k) && i <= k
    ensures TokenFrom(t, c, tok, i) == NoMatch
    decreases k - i
  {
    AgreeLess(t, c, tok, i, k);
    if i < k {
      RefusedIsNoMatch(t, c, tok, i + 1, k);
    }
  }

  /**
   `match_tok` returns 0 if and only if a character differs from the token's, all before it being the
   same, or the whole token is there but the word goes on; its assertion fails only for the empty token.
   */
  lemma {:induction false} TokenRefused(t: seq<Byte>, p: nat, tok: seq<Byte>)
    requires p <= |t|
    ensures Token(t, p, tok) == NoMatch <==> exists k: nat :: Refused(t, Start(t, p), tok, k)
    ensures Token(t, p, tok) == Aborts <==> tok == [] && Start(t, p) < |t|
    ensures Token(t, p, tok) != Overflows
  {
    hide Start;
    hide TokenFrom;
    var c := Start(t, p);
    if c < |t| && tok != [] {
      assert Agree(t, c, tok, 0);
      TokenRefusedFrom(t, c, tok, 0);
    }
    if k: nat :| Refused(t, c, tok, k) {
      RefusedIsNoMatch(t, c, tok, 0, k);
    }
  }
}
