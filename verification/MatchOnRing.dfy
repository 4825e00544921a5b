/**
 What the matchers answer over the ring lexer, for every input and every chunking, and exactly when
 that is the right answer.
 */
module MatchOnRing {
  import opened Words
  import opened Lexer
  import opened MatchSpec
  import opened RingPlace

  // ---------------------------------------------------------------- line ends

  /** Line ends are eaten from `e` on as far as they are buffered. */
  function AfterEols(t: seq<Byte>, e: nat, have: nat): (q: nat)
    requires e <= have <= |t|
    ensures e <= q <= have && (q < have ==> !IsEol(t[q])) && forall i :: e <= i < q ==> IsEol(t[i])
    decreases have - e
  {
    if e < have && IsEol(t[e]) then AfterEols(t, e + 1, have) else e
  }

  /** The same two line ends, in one read and in two: `match_eol` stops behind the second, or between them. */
  lemma {:induction false} EolEndDependsOnCut()
    ensures var t: seq<Byte> := [LF, LF, 88];
            var whole, cut := Place(0, [[t]], 0), Place(0, [[[LF]], [[LF, 88]]], 0);
            && PlaceOk(t, whole) && PlaceOk(t, cut)
            && Reach(whole, 0).have == 3 && AfterEols(t, 1, 3) == 2
            && Reach(cut, 0).have == 1 && AfterEols(t, 1, 1) == 1
  {
    var t: seq<Byte> := [LF, LF, 88];
    var a: Refill, b: Refill, c: Refill := [t], [[LF]], [[LF, 88]];
    OneRead(t);
    OneRead([LF]);
    OneRead([LF, 88]);
    assert [a][1..] == [] && [b, c][1..] == [c] && [c][1..] == [];
    assert FlatAll([a]) == t && FlatAll([c]) == [LF, 88] && FlatAll([b, c]) == t;
    assert t[..0] == [];
  }

  lemma OneRead(bs: seq<Byte>)
    ensures Flat([bs]) == bs
  {
    var none: Refill := [];
    assert [bs][..0] == none && Flat(none) == [];
    assert [] + bs == bs;
  }

  // ---------------------------------------------------------------- where matching starts

  lemma SpacesBetween(t: seq<Byte>, b: nat, m: nat)
    requires b <= |t| && b <= m <= AfterSpaces(t, b)
    ensures AfterSpaces(t, m) == AfterSpaces(t, b)
  {
    hide AfterSpaces;
    var x, y := AfterSpaces(t, b), AfterSpaces(t, m);
    if x < |t| {
      assert !IsSpace(t[x]);
    }
  }

  /**
   Where `match_tok` and `matchv` start comparing.  Skipping blank lines ends with one restore, to the
   start of the first line that is not blank.
   */
  ghost function RingStart(t: seq<Byte>, a: Place, n: nat): (c: nat)
    requires n > 0 && PlaceOk(t, a)
    ensures Start(t, a.pos) <= c <= |t|
    ensures Start(t, a.pos) < |t| ==>
              (c == Start(t, a.pos) <==> BackAtLine(t, a, n) <= Start(t, a.pos))
  {
    var x := Start(t, a.pos);
    if x == |t| then x
    else
      var m := BackAtLine(t, a, n);
      if m <= x then
        SpacesBetween(t, AfterBlankLines(t, a.pos), m);
        AfterSpaces(t, m)
      else AfterSpaces(t, m)
  }

  /** Where the restore at the end of blank-line skipping lands. */
  ghost function BackAtLine(t: seq<Byte>, a: Place, n: nat): (m: nat)
    requires n > 0 && PlaceOk(t, a) && Start(t, a.pos) < |t|
    ensures AfterBlankLines(t, a.pos) <= m <= Reach(a, Start(t, a.pos)).have <= |t|
  {
    var x := Start(t, a.pos);
    ReachOk(t, a, x);
    Landing(Reach(a, x).have, AfterBlankLines(t, a.pos), n)
  }

  /** When everything from the call's start on is still in the ring, matching starts in the right place. */
  lemma StartRight(t: seq<Byte>, a: Place, n: nat)
    requires n > 0 && PlaceOk(t, a)
    requires Reach(a, Start(t, a.pos)).have < a.pos + n
    ensures RingStart(t, a, n) == Start(t, a.pos)
  {
  }

  /** The line being looked at ends no later than matching starts, and before it if the line is blank. */
  lemma LineBeforeStart(t: seq<Byte>, p: nat)
    requires p <= |t|
    ensures AfterSpaces(t, p) <= Start(t, p)
    ensures AfterSpaces(t, p) == |t| || !IsEol(t[AfterSpaces(t, p)]) ==>
              AfterBlankLines(t, p) == p && Start(t, p) == AfterSpaces(t, p)
  {
    hide AfterSpaces;
  }

  // ---------------------------------------------------------------- how far a match looks

  /** The last place `match_tok` looks at. */
  function TokenReach(t: seq<Byte>, c: nat, tok: seq<Byte>, i: nat): (x: nat)
    requires c + i <= |t| && i <= |tok|
    ensures c <= x <= |t| && (i < |tok| ==> c + i <= x)
    decreases |tok| - i
  {
    if i == |tok| then
      if i == 0 then c else if IsAlpha(tok[i - 1]) then c + i else c + i - 1
    else if c + i == |t| || t[c + i] != tok[i] then c + i
    else TokenReach(t, c, tok, i + 1)
  }

  function UintReach(t: seq<Byte>, p: nat): (x: nat)
    requires p <= |t|
    ensures p <= x <= |t|
  {
    AfterDigits(t, AfterSpaces(t, p))
  }

  function QuoteReach(t: seq<Byte>, k: nat, n: nat): (x: nat)
    requires 0 < k <= |t|
    ensures k - 1 <= x <= |t| && (n > 0 ==> k <= x)
    decreases n
  {
    if n == 0 then k - 1 else if k == |t| || t[k] == QUOTE then k else QuoteReach(t, k + 1, n - 1)
  }

  function LiteralReach(t: seq<Byte>, p: nat, n: nat): (x: nat)
    requires p <= |t|
    ensures p <= x <= |t|
  {
    var q := AfterSpaces(t, p);
    if q == |t| || t[q] != QUOTE then q else QuoteReach(t, q + 1, n)
  }

  /** The last place one round of `matchv`'s loop looks at; `last` if it looks at none. */
  function DirectiveReach(t: seq<Byte>, q: nat, fmt: seq<Byte>, j: nat, last: nat): (x: nat)
    requires last <= q <= |t| && j < |fmt|
    ensures last <= x <= |t| && (!IsEol(fmt[j]) ==> q <= x)
    ensures DirectiveAt(t, q, fmt, j).verdict.Matched? ==> x <= DirectiveAt(t, q, fmt, j).verdict.end
  {
    if IsEol(fmt[j]) then last
    else if q == |t| || IsEol(t[q]) || fmt[j] == SPACE then q
    else if fmt[j] != PERCENT then AfterSpaces(t, q)
    else if j + 1 == |fmt| then q
    else ConversionReach(t, q, fmt[j + 1])
  }

  function ConversionReach(t: seq<Byte>, q: nat, kind: Byte): (x: nat)
    requires q <= |t|
    ensures q <= x <= |t| && (Conversion(t, q, kind).0.Matched? ==> x <= Conversion(t, q, kind).0.end)
  {
    if kind == LOWER_S then QuoteReachEnds(t, q); LiteralReach(t, q, 32)
    else if kind == LOWER_U then UintReach(t, q)
    else q
  }

  lemma {:induction false} QuoteEnds(t: seq<Byte>, k: nat, n: nat)
    requires 0 < k <= |t| && ClosingQuote(t, k, n).Matched?
    ensures QuoteReach(t, k, n) < ClosingQuote(t, k, n).end
    decreases n
  {
    if t[k] != QUOTE {
      QuoteEnds(t, k + 1, n - 1);
    }
  }

  lemma QuoteReachEnds(t: seq<Byte>, q: nat)
    requires q <= |t|
    ensures Literal(t, q, 32).0.Matched? ==> LiteralReach(t, q, 32) <= Literal(t, q, 32).0.end
  {
    hide ClosingQuote;
    hide QuoteReach;
    if Literal(t, q, 32).0.Matched? {
      QuoteEnds(t, AfterSpaces(t, q) + 1, 32);
    }
  }

  /** The last place `matchv` looks at from its `j`-th format character on. */
  function FormatReach(t: seq<Byte>, q: nat, fmt: seq<Byte>, j: nat, last: nat): (x: nat)
    requires last <= q <= |t| && j <= |fmt|
    ensures last <= x <= |t|
    decreases |fmt| - j
  {
    if j == |fmt| then last
    else
      var d, x := DirectiveAt(t, q, fmt, j), DirectiveReach(t, q, fmt, j, last);
      if d.verdict.Matched? then FormatReach(t, d.verdict.end, fmt, d.next, x) else x
  }

  // ---------------------------------------------------------------- answers

  datatype Answer = Answer(verdict: Verdict, at: Place)

  /** `match_eol` and `match_blank_line` over a ring of `n` slots. */
  ghost function EolOnRing(t: seq<Byte>, a: Place, n: nat): Answer
    requires n > 0 && PlaceOk(t, a)
  {
    var x := AfterSpaces(t, a.pos);
    ReachOk(t, a, x);
    var r := Reach(a, x);
    if !RefillsFit(a, x, n) then Answer(Overflows, a)
    else if x == |t| then Answer(Starved, r.(pos := x))
    else if !IsEol(t[x]) then Answer(NoMatch, r.(pos := Landing(r.have, a.pos, n)))
    else Answer(Matched(AfterEols(t, x + 1, r.have)), r.(pos := AfterEols(t, x + 1, r.have)))
  }

  /** The place an answer leaves the lexer at: behind the match, or where restoring the start lands. */
  function Leave(v: Verdict, reached: Place, p: nat, n: nat): Place
    requires n > 0 && p <= reached.have
  {
    match v
    case Matched(e) => reached.(pos := e)
    case NoMatch => reached.(pos := Landing(reached.have, p, n))
    case _ => reached
  }

  /** `match_tok` over a ring of `n` slots. */
  ghost function TokOnRing(t: seq<Byte>, a: Place, tok: seq<Byte>, n: nat): Answer
    requires n > 0 && PlaceOk(t, a)
  {
    var c := RingStart(t, a, n);
    var x := TokenReach(t, c, tok, 0);
    if !RefillsFit(a, x, n) then Answer(Overflows, a)
    else Answer(TokenAt(t, c, tok), Leave(TokenAt(t, c, tok), Reach(a, x), a.pos, n))
  }

  /** `matchv` over a ring of `n` slots: its answer, and the values it extracts. */
  ghost function FormatOnRing(t: seq<Byte>, a: Place, fmt: seq<Byte>, n: nat): (Answer, seq<Value>)
    requires n > 0 && PlaceOk(t, a)
  {
    var c := RingStart(t, a, n);
    var x := if c == |t| then c else FormatReach(t, c, fmt, 0, c);
    if !RefillsFit(a, x, n) then (Answer(Overflows, a), [])
    else
      var o := FormatAt(t, c, fmt);
      (Answer(o.verdict, Leave(o.verdict, Reach(a, x), a.pos, n)), o.written)
  }

  /** The input the call reads in, from where it starts to the newest byte, fits the ring, and so does each refill of it. */
  ghost predicate CallFits(a: Place, x: nat, n: nat)
  {
    RefillsFit(a, x, n) && Reach(a, x).have < a.pos + n
  }

  lemma FitsEarlier(a: Place, x: nat, y: nat, n: nat)
    requires x <= y && Reach(a, y).have < a.pos + n
    ensures Reach(a, x).have < a.pos + n
  {
    ReachTwice(a, x, y, n);
  }

  /**
   A 0 result of `match_tok` leaves the position unchanged exactly when what the call read in fits
   the ring; a match ends in the right place exactly when the refills fit and the restore that ends
   blank-line skipping does not land behind the first word.
   */
  lemma {:induction false} MatchTokRightIff(t: seq<Byte>, a: Place, tok: seq<Byte>, n: nat)
    requires n > 0 && PlaceOk(t, a)
    ensures var v, r := Token(t, a.pos, tok), TokOnRing(t, a, tok, n);
            var x := TokenReach(t, Start(t, a.pos), tok, 0);
            && (v == NoMatch ==> (r.verdict == NoMatch && r.at.pos == a.pos <==> CallFits(a, x, n)))
            && (v.Matched? ==> (r.verdict == v <==> RefillsFit(a, x, n) && BackAtLine(t, a, n) <= Start(t, a.pos)))
            && (CallFits(a, x, n) ==> r.verdict == v && r.at == Leave(v, Reach(a, x), a.pos, n))
  {
    hide Start;
    hide TokenFrom;
    hide RingStart;
    hide BackAtLine;
    hide Reach;
    hide RefillsFit;
    var s, c := Start(t, a.pos), RingStart(t, a, n);
    var x, y := TokenReach(t, s, tok, 0), TokenReach(t, c, tok, 0);
    if Reach(a, x).have < a.pos + n {
      FitsEarlier(a, s, x, n);
      StartRight(t, a, n);
    }
    if Reach(a, y).have < a.pos + n {
      FitsEarlier(a, s, y, n);
      StartRight(t, a, n);
    }
    if Token(t, a.pos, tok).Matched? && TokenAt(t, c, tok).Matched? {
      TokenEnds(t, s, tok);
      TokenEnds(t, c, tok);
    }
  }

  lemma TokenEnds(t: seq<Byte>, c: nat, tok: seq<Byte>)
    requires c <= |t| && TokenAt(t, c, tok).Matched?
    ensures TokenAt(t, c, tok).end == c + |tok|
  {
    assert t[c..c] == tok[..0];
    TokenFromMeans(t, c, tok, 0);
  }

  // ---------------------------------------------------------------- two starts with one end

  /** Nothing but digits and blanks lies between two places. */
  ghost predicate Loose(t: seq<Byte>, a: nat, b: nat)
    requires a <= |t| && b <= |t|
  {
    forall i :: (a <= i < b || b <= i < a) ==> IsDigit(t[i]) || IsSpace(t[i])
  }

  lemma LooseBack(t: seq<Byte>, q: nat, q1: nat, r: nat, r1: nat)
    requires q <= q1 <= |t| && r <= r1 <= |t| && Loose(t, q, q1) && Loose(t, r, r1) && Loose(t, q1, r1)
    ensures Loose(t, q, r)
  {
  }

  /** Behind a character that is neither digit nor blank, loose places are one place. */
  lemma LooseMeet(t: seq<Byte>, q1: nat, r1: nat)
    requires 0 < q1 <= |t| && 0 < r1 <= |t| && Loose(t, q1, r1) && t[q1 - 1] == t[r1 - 1]
    requires !IsDigit(t[q1 - 1]) && !IsSpace(t[q1 - 1])
    ensures q1 == r1
  {
  }

  /** Two places from which the same place is the first that is not blank. */
  lemma LooseBlanks(t: seq<Byte>, q: nat, r: nat)
    requires q <= |t| && r <= |t| && AfterSpaces(t, q) == AfterSpaces(t, r)
    ensures Loose(t, q, r)
  {
    hide AfterSpaces;
  }

  lemma PlainBack(t: seq<Byte>, q: nat, r: nat, ch: Byte)
    requires q <= |t| && r <= |t| && PlainChar(t, q, ch).Matched? && PlainChar(t, r, ch).Matched?
    requires Loose(t, PlainChar(t, q, ch).end, PlainChar(t, r, ch).end)
    ensures Loose(t, q, r)
  {
    hide AfterSpaces;
    var q1, r1 := PlainChar(t, q, ch).end, PlainChar(t, r, ch).end;
    if IsDigit(ch) {
      LooseBack(t, q, q1, r, r1);
    } else {
      LooseMeet(t, q1, r1);
      LooseBlanks(t, q, r);
    }
  }

  lemma NumberBack(t: seq<Byte>, q: nat, r: nat)
    requires q <= |t| && r <= |t| && Uint(t, q).0.Matched? && Uint(t, r).0.Matched?
    requires Loose(t, Uint(t, q).0.end, Uint(t, r).0.end)
    ensures Loose(t, q, r)
  {
    hide AfterSpaces;
    hide AfterDigits;
    hide Decimal;
    LooseBack(t, q, Uint(t, q).0.end, r, Uint(t, r).0.end);
  }

  lemma QuoteBack(t: seq<Byte>, o1: nat, o2: nat, n: nat)
    requires o1 < o2 < |t| && t[o2] == QUOTE
    requires ClosingQuote(t, o1 + 1, n).Matched? && ClosingQuote(t, o2 + 1, n).Matched?
    ensures ClosingQuote(t, o1 + 1, n) != ClosingQuote(t, o2 + 1, n)
  {
    hide ClosingQuote;
    NoQuoteInside(t, o1 + 1, ClosingQuote(t, o1 + 1, n).end - 1);
  }

  lemma NoQuoteInside(t: seq<Byte>, a: nat, b: nat)
    requires a <= b <= |t| && QUOTE !in t[a..b]
    ensures forall i :: a <= i < b ==> t[i] != QUOTE
  {
    forall i | a <= i < b
      ensures t[i] != QUOTE
    {
      assert t[i] == t[a..b][i - a];
    }
  }

  lemma TextBack(t: seq<Byte>, q: nat, r: nat, n: nat)
    requires q <= |t| && r <= |t| && Literal(t, q, n).0.Matched? && Literal(t, r, n).0.Matched?
    requires Loose(t, Literal(t, q, n).0.end, Literal(t, r, n).0.end)
    ensures Loose(t, q, r)
  {
    hide AfterSpaces;
    hide ClosingQuote;
    var o1, o2 := AfterSpaces(t, q), AfterSpaces(t, r);
    LooseMeet(t, Literal(t, q, n).0.end, Literal(t, r, n).0.end);
    if o1 < o2 {
      QuoteBack(t, o1, o2, n);
    } else if o2 < o1 {
      QuoteBack(t, o2, o1, n);
    }
    LooseBlanks(t, q, r);
  }

  lemma DirectiveBack(t: seq<Byte>, q: nat, r: nat, fmt: seq<Byte>, j: nat)
    requires q <= |t| && r <= |t| && j < |fmt|
    requires DirectiveAt(t, q, fmt, j).verdict.Matched? && DirectiveAt(t, r, fmt, j).verdict.Matched?
    requires Loose(t, DirectiveAt(t, q, fmt, j).verdict.end, DirectiveAt(t, r, fmt, j).verdict.end)
    ensures Loose(t, q, r)
  {
    hide Literal;
    hide Uint;
    hide PlainChar;
    hide Loose;
    if fmt[j] == SPACE {
    } else if fmt[j] != PERCENT {
      PlainBack(t, q, r, fmt[j]);
    } else if fmt[j + 1] == LOWER_S {
      TextBack(t, q, r, 32);
    } else {
      NumberBack(t, q, r);
    }
  }

  /** Matches of one format that end in one place start loosely in one place. */
  lemma {:induction false} FormatBack(t: seq<Byte>, q: nat, r: nat, fmt: seq<Byte>, j: nat,
                                      m1: bool, m2: bool, w1: seq<Value>, w2: seq<Value>)
    requires q <= |t| && r <= |t| && j <= |fmt|
    requires FormatFrom(t, q, fmt, j, m1, w1).verdict.Matched?
    requires FormatFrom(t, q, fmt, j, m1, w1).verdict == FormatFrom(t, r, fmt, j, m2, w2).verdict
    ensures Loose(t, q, r)
    decreases |fmt| - j
  {
    hide DirectiveAt;
    if j < |fmt| {
      hide Loose;
      var d, e := DirectiveAt(t, q, fmt, j), DirectiveAt(t, r, fmt, j);
      DirectivesSame(t, q, r, fmt, j);
      FormatBack(t, d.verdict.end, e.verdict.end, fmt, d.next, m1 || d.strict, m2 || e.strict, w1 + d.values, w2 + e.values);
      DirectiveBack(t, q, r, fmt, j);
    }
  }

  lemma DirectivesSame(t: seq<Byte>, q: nat, r: nat, fmt: seq<Byte>, j: nat)
    requires q <= |t| && r <= |t| && j < |fmt|
    requires DirectiveAt(t, q, fmt, j).verdict.Matched? && DirectiveAt(t, r, fmt, j).verdict.Matched?
    ensures DirectiveAt(t, q, fmt, j).next == DirectiveAt(t, r, fmt, j).next
  {
  }

  lemma {:induction false} FormatEnds(t: seq<Byte>, q: nat, fmt: seq<Byte>, j: nat, m: bool, w: seq<Value>)
    requires q <= |t| && j <= |fmt| && FormatFrom(t, q, fmt, j, m, w).verdict.Matched?
    ensures q <= FormatFrom(t, q, fmt, j, m, w).verdict.end
    decreases |fmt| - j
  {
    if j < |fmt| {
      var d := DirectiveAt(t, q, fmt, j);
      var x := DirectiveReach(t, q, fmt, j, q);
      hide DirectiveAt;
      FormatEnds(t, d.verdict.end, fmt, d.next, m || d.strict, w + d.values);
    }
  }

  /** The first thing a format asks for, if anything, cannot begin inside a run of digits. */
  predicate Anchored(fmt: seq<Byte>, j: nat)
    requires j <= |fmt|
    decreases |fmt| - j
  {
    if j == |fmt| then true
    else if fmt[j] == SPACE then Anchored(fmt, j + 1)
    else if fmt[j] == PERCENT then j + 1 < |fmt| && fmt[j + 1] != LOWER_U
    else !IsDigit(fmt[j])
  }

  lemma {:induction false} AnchoredStart(t: seq<Byte>, q: nat, fmt: seq<Byte>, j: nat, m: bool, w: seq<Value>)
    requires q < |t| && j <= |fmt| && Anchored(fmt, j) && !IsSpace(t[q])
    requires FormatFrom(t, q, fmt, j, m, w).verdict.Matched?
    ensures FormatFrom(t, q, fmt, j, m, w).verdict == Matched(q) || !IsDigit(t[q])
    decreases |fmt| - j
  {
    if j < |fmt| {
      assert AfterSpaces(t, q) == q;
      if fmt[j] == SPACE {
        AnchoredStart(t, q, fmt, j + 1, m, w + []);
      }
    }
  }

  /** From different starts an anchored format does not end in one place. */
  lemma {:induction false} StartsTellApart(t: seq<Byte>, s: nat, c: nat, fmt: seq<Byte>)
    requires s < c <= |t| && !IsSpace(t[s]) && Anchored(fmt, 0) && FormatAt(t, s, fmt).verdict.Matched?
    ensures FormatAt(t, s, fmt).verdict != FormatAt(t, c, fmt).verdict
  {
    hide FormatFrom;
    if FormatAt(t, s, fmt).verdict == FormatAt(t, c, fmt).verdict {
      AnchoredStart(t, s, fmt, 0, false, []);
      FormatEnds(t, c, fmt, 0, false, []);
      FormatBack(t, s, c, fmt, 0, false, false, [], []);
    }
  }

  /**
   The same for `matchv`: exact for 0 results, and for matches of a format that does not begin with a
   number or digit; for any format a match is right whenever the refills fit and the restore lands in
   time.
   */
  lemma {:induction false} MatchvRightIff(t: seq<Byte>, a: Place, fmt: seq<Byte>, n: nat)
    requires n > 0 && PlaceOk(t, a)
    ensures var o, r := Format(t, a.pos, fmt), FormatOnRing(t, a, fmt, n);
            var s := Start(t, a.pos);
            var x := if s == |t| then s else FormatReach(t, s, fmt, 0, s);
            && (o.verdict == NoMatch ==> (r.0.verdict == NoMatch && r.0.at.pos == a.pos <==> CallFits(a, x, n)))
            && (o.verdict.Matched? && RefillsFit(a, x, n) && BackAtLine(t, a, n) <= s ==>
                  r.0.verdict == o.verdict && r.1 == o.written)
            && (o.verdict.Matched? && Anchored(fmt, 0) ==>
                  (r.0.verdict == o.verdict && r.1 == o.written <==> RefillsFit(a, x, n) && BackAtLine(t, a, n) <= s))
            && (CallFits(a, x, n) ==>
                  r.0.verdict == o.verdict && r.1 == o.written && r.0.at == Leave(o.verdict, Reach(a, x), a.pos, n))
  {
    hide Start;
    hide FormatFrom;
    hide FormatReach;
    hide RingStart;
    hide BackAtLine;
    hide Reach;
    hide RefillsFit;
    hide Anchored;
    var o := Format(t, a.pos, fmt);
    var s, c := Start(t, a.pos), RingStart(t, a, n);
    var x := if s == |t| then s else FormatReach(t, s, fmt, 0, s);
    var y := if c == |t| then c else FormatReach(t, c, fmt, 0, c);
    if Reach(a, x).have < a.pos + n {
      FitsEarlier(a, s, x, n);
      StartRight(t, a, n);
    }
    if Reach(a, y).have < a.pos + n {
      FitsEarlier(a, s, y, n);
      StartRight(t, a, n);
    }
    if o.verdict.Matched? && Anchored(fmt, 0) && s < c {
      StartNotBlank(t, a.pos);
      StartsTellApart(t, s, c, fmt);
    }
  }

  lemma StartNotBlank(t: seq<Byte>, p: nat)
    requires p <= |t| && Start(t, p) < |t|
    ensures !IsSpace(t[Start(t, p)])
  {
  }

  // ---------------------------------------------------------------- witnesses

  function LineEnds(k: nat): seq<Byte>
  {
    seq(k, _ => LF)
  }

  /** Twice 600 line ends and an X, each refill well within the ring. */
  function ManyBlankLines(): Place
  {
    Place(0, [[LineEnds(600)], [LineEnds(600)], [[88]]], 0)
  }

  lemma BlankLinesPlace()
    ensures var t, a := LineEnds(1200) + [88], ManyBlankLines();
            && PlaceOk(t, a) && Reach(a, 1200).have == 1201 && RefillsFit(a, 1200, 1024)
  {
    var t, a := LineEnds(1200) + [88], ManyBlankLines();
    var u, v := [[LineEnds(600)], [[88]]], [[[88]]];
    OneRead(LineEnds(600));
    OneRead([88]);
    assert a.pending[1..] == u && u[1..] == v && v[1..] == [];
    assert FlatAll(v) == [88] + [] == [88];
    assert FlatAll(u) == LineEnds(600) + [88];
    assert FlatAll(a.pending) == LineEnds(600) + (LineEnds(600) + [88]) == t;
    assert t[..0] == [] && [] + t == t;
    assert Reach(Place(1200, v, 0), 1200) == Place(1201, [], 0);
    assert Reach(Place(600, u, 0), 1200) == Reach(Place(1200, v, 0), 1200);
    assert RefillsFit(Place(600, u, 0), 1200, 1024);
  }

  lemma BlankLinesStart()
    ensures var t := LineEnds(1200) + [88]; Start(t, 0) == AfterBlankLines(t, 0) == 1200
  {
    var t := LineEnds(1200) + [88];
    assert t[1200] == 88;
    assert forall i :: 0 <= i < 1200 ==> IsEol(t[i]);
    EolRun(t, 0, 1200);
    assert AfterSpaces(t, 1200) == 1200;
  }

  /** A ring of 1024 slots: `match_tok("OK")` fails as it should, and leaves the lexer 1024 bytes further on. */
  lemma {:induction false} NoMatchLosesInput()
    ensures var t, a := LineEnds(1200) + [88], ManyBlankLines();
            && PlaceOk(t, a) && RefillsFit(a, 1200, 1024) && Token(t, 0, [79, 75]) == NoMatch
            && TokOnRing(t, a, [79, 75], 1024).verdict == NoMatch && TokOnRing(t, a, [79, 75], 1024).at.pos == 1024
  {
    var t, a := LineEnds(1200) + [88], ManyBlankLines();
    BlankLinesPlace();
    BlankLinesStart();
    assert Landing(1201, 1200, 1024) == 1200;
    assert Landing(1201, 1024, 1024) == 1024;
    assert Landing(1201, 0, 1024) == 1024;
    assert RingStart(t, a, 1024) == 1200;
    assert t[1200] == 88 && t[1200] != [79, 75][0];
    assert TokenReach(t, 1200, [79, 75], 0) == 1200;
  }

  /** A ring of eight slots, five blanks and then 0007;;; in one refill. */
  function LeadingZeros(): Place
  {
    Place(0, [[[32, 32, 32, 32, 32]], [[48, 48, 48, 55, 59, 59, 59]]], 0)
  }

  lemma LeadingZerosPlace()
    ensures var t, a := [32, 32, 32, 32, 32, 48, 48, 48, 55, 59, 59, 59], LeadingZeros();
            && PlaceOk(t, a) && Reach(a, 5).have == 12 && RefillsFit(a, 9, 8) && RefillsFit(a, 5, 8)
  {
    var t: seq<Byte>, a := [32, 32, 32, 32, 32, 48, 48, 48, 55, 59, 59, 59], LeadingZeros();
    var x: seq<Byte>, y: seq<Byte> := [32, 32, 32, 32, 32], [48, 48, 48, 55, 59, 59, 59];
    OneRead(x);
    OneRead(y);
    var u: seq<Refill> := [[y]];
    assert a.pending[1..] == u && u[1..] == [];
    assert FlatAll(u) == y + [] == y;
    assert FlatAll(a.pending) == x + y == t;
    assert t[..0] == [] && [] + t == t;
    assert Reach(Place(5, u, 0), 5) == Place(12, [], 0);
    assert RefillsFit(Place(5, u, 0), 9, 8) && RefillsFit(Place(5, u, 0), 5, 8);
  }

  /**
   For `matchv` the bound is not necessary for a match: here the restore lands behind the first
   three digits of the number, and `%u` reads the same value and ends in the same place all the same.
   */
  lemma {:induction false} LuckyMatch()
    ensures var t, a := [32, 32, 32, 32, 32, 48, 48, 48, 55, 59, 59, 59], LeadingZeros();
            && PlaceOk(t, a) && Start(t, 0) == 5 && BackAtLine(t, a, 8) == 8
            && Format(t, 0, [PERCENT, LOWER_U]) == Outcome(Matched(9), [Value.Number(7)])
            && FormatOnRing(t, a, [PERCENT, LOWER_U], 8).0.verdict == Matched(9)
            && FormatOnRing(t, a, [PERCENT, LOWER_U], 8).1 == [Value.Number(7)]
  {
    hide *;
    var t: seq<Byte>, a := [32, 32, 32, 32, 32, 48, 48, 48, 55, 59, 59, 59], LeadingZeros();
    LeadingZerosPlace();
    LeadingZerosStart(a);
    LuckyStart(t, a);
    SevenEitherWay(t);
    AnswerFrom(t, a, [PERCENT, LOWER_U], 8, 8, 9, [Value.Number(7)]);
    FormatFromStart(t, 0, [PERCENT, LOWER_U]);
  }

  lemma LeadingZerosStart(a: Place)
    requires a == LeadingZeros()
    ensures a.pos == 0
  {
  }

  lemma FormatFromStart(t: seq<Byte>, p: nat, fmt: seq<Byte>)
    requires p <= |t|
    ensures Format(t, p, fmt) == FormatAt(t, Start(t, p), fmt)
  {
  }

  lemma AnswerFrom(t: seq<Byte>, a: Place, fmt: seq<Byte>, n: nat, c: nat, e: nat, vs: seq<Value>)
    requires n > 0 && PlaceOk(t, a) && RingStart(t, a, n) == c < |t| && RefillsFit(a, e, n)
    requires FormatAt(t, c, fmt) == Outcome(Matched(e), vs) && FormatReach(t, c, fmt, 0, c) == e
    ensures FormatOnRing(t, a, fmt, n).0.verdict == Matched(e) && FormatOnRing(t, a, fmt, n).1 == vs
  {
  }

  lemma SevenEitherWay(t: seq<Byte>)
    requires t == [32, 32, 32, 32, 32, 48, 48, 48, 55, 59, 59, 59]
    ensures FormatAt(t, 5, [PERCENT, LOWER_U]) == Outcome(Matched(9), [Value.Number(7)])
    ensures FormatAt(t, 8, [PERCENT, LOWER_U]) == Outcome(Matched(9), [Value.Number(7)])
    ensures FormatReach(t, 8, [PERCENT, LOWER_U], 0, 8) == 9
  {
    hide FormatAt;
    hide FormatReach;
    hide AfterDigits;
    hide AfterSpaces;
    hide Decimal;
    DigitsTo(t, 5, 9);
    DigitsTo(t, 8, 9);
    SpacesTo(t, 5, 5);
    SpacesTo(t, 8, 8);
    SevenIs(t);
    OneNumber(t, 5, 9, 7);
    OneNumber(t, 8, 9, 7);
  }

  lemma LuckyStart(t: seq<Byte>, a: Place)
    requires t == [32, 32, 32, 32, 32, 48, 48, 48, 55, 59, 59, 59] && a.pos == 0
    requires PlaceOk(t, a) && Reach(a, 5).have == 12
    ensures Start(t, 0) == 5 && BackAtLine(t, a, 8) == 8 && RingStart(t, a, 8) == 8
  {
    hide Reach;
    hide PlaceOk;
    hide AfterSpaces;
    SpacesTo(t, 0, 5);
    SpacesTo(t, 8, 8);
    assert AfterBlankLines(t, 0) == 0;
    assert Landing(12, 8, 8) == 8 && Landing(12, 0, 8) == 8;
  }

  lemma SpacesTo(t: seq<Byte>, p: nat, q: nat)
    requires p <= q < |t| && !IsSpace(t[q]) && forall i :: p <= i < q ==> IsSpace(t[i])
    ensures AfterSpaces(t, p) == q
  {
    hide AfterSpaces;
  }

  lemma DigitsTo(t: seq<Byte>, p: nat, q: nat)
    requires p <= q < |t| && !IsDigit(t[q]) && forall i :: p <= i < q ==> IsDigit(t[i])
    ensures AfterDigits(t, p) == q
  {
    hide AfterDigits;
  }

  lemma SevenIs(t: seq<Byte>)
    requires t == [32, 32, 32, 32, 32, 48, 48, 48, 55, 59, 59, 59]
    ensures Decimal(t[5..9]) == 7 && Decimal(t[8..9]) == 7
  {
    assert t[5..9] == [48, 48, 48, 55] && t[8..9] == [55];
    var z: seq<Byte> := [48, 48, 48, 55];
    assert z[..3] == [48, 48, 48] && z[..3][..2] == [48, 48] && z[..3][..2][..1] == [48] && z[..3][..2][..1][..0] == [];
    assert Decimal([]) == 0;
    assert Decimal([48]) == 0;
    assert Decimal([48, 48]) == 0;
    assert Decimal([48, 48, 48]) == 0;
    var s: seq<Byte> := [55];
    assert s[..0] == [];
  }

  /** A format that is one `%u`, standing at a digit. */
  lemma OneNumber(t: seq<Byte>, c: nat, e: nat, v: Word)
    requires c < e < |t| && !IsEol(t[c]) && AfterSpaces(t, c) == c && AfterDigits(t, c) == e && Decimal(t[c..e]) == v
    ensures FormatAt(t, c, [PERCENT, LOWER_U]) == Outcome(Matched(e), [Value.Number(v)])
    ensures FormatReach(t, c, [PERCENT, LOWER_U], 0, c) == e
  {
    hide AfterSpaces;
    hide AfterDigits;
    hide Decimal;
    var fmt := [PERCENT, LOWER_U];
    assert DirectiveAt(t, c, fmt, 0) == Directive(Matched(e), [Value.Number(v)], 2, false);
    assert FormatFrom(t, e, fmt, 2, false, [] + [Value.Number(v)]) == Outcome(Matched(e), [Value.Number(v)]);
    assert FormatReach(t, e, fmt, 2, e) == e;
  }
}
