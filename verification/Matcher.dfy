/** The matchers of `esp-parse.c` over the ring lexer, for input arriving in arbitrary pieces. */
module Matcher {
  import opened Words
  import opened ModArith
  import opened Lexer
  import opened LexerCode
  import opened MatchSpec
  import opened RingPlace
  import opened MatchOnRing

  function At(t: seq<Byte>, p: nat): Obs
  {
    if p < |t| then Char(t[p]) else Waits
  }

  /** Getc and peek of the keep-everything lexer read the whole stream in order, however it is cut into refills. */
  lemma {:induction false} SimpleReadsStream(s: Simple)
    requires SimpleOk(s)
    ensures var t := s.stream + FlatAll(s.pending);
            && SimpleStep(s, Getc).1 == SimpleStep(s, Peek).1 == At(t, s.pos)
            && SimpleStep(s, Peek).0.pos == s.pos
            && SimpleStep(s, Getc).0.pos == (if s.pos < |t| then s.pos + 1 else s.pos)
            && (forall op <- [Getc, Peek] :: SimpleStep(s, op).0.stream + FlatAll(SimpleStep(s, op).0.pending) == t)
  {
    if SimpleDry(s) && s.pending != [] {
      assert SimpleReadin(s).stream + FlatAll(s.pending[1..]) == s.stream + FlatAll(s.pending);
    }
  }

  lemma SliceSnoc(t: seq<Byte>, a: nat, b: nat)
    requires a <= b < |t|
    ensures t[a..b + 1] == t[a..b] + [t[b]]
  {
  }

  lemma DecimalSnoc(t: seq<Byte>, a: nat, b: nat)
    requires a <= b < |t| && forall j :: a <= j <= b ==> IsDigit(t[j])
    ensures Decimal(t[a..b + 1]) == (10 * Decimal(t[a..b]) + (t[b] - ZERO)) % 0x1_0000_0000
  {
    var ds := t[a..b + 1];
    assert ds[..|ds| - 1] == t[a..b];
  }

  /** The digits from `q` to `p` denote `x`, and any more start at `p`. */
  ghost predicate DigitsSoFar(t: seq<Byte>, q: nat, p: nat, x: Word)
  {
    && q <= p <= |t| && AfterDigits(t, p) == AfterDigits(t, q)
    && (forall j :: q <= j < p ==> IsDigit(t[j])) && x == Decimal(t[q..p])
  }

  lemma NoDigitsYet(t: seq<Byte>, q: nat)
    requires q <= |t|
    ensures DigitsSoFar(t, q, q, 0)
  {
  }

  lemma OneMoreDigit(t: seq<Byte>, q: nat, p: nat, x: Word)
    requires DigitsSoFar(t, q, p, x) && p < |t| && IsDigit(t[p])
    ensures DigitsSoFar(t, q, p + 1, (10 * x + (t[p] - ZERO)) % 0x1_0000_0000)
  {
    DecimalSnoc(t, q, p);
  }

  lemma DigitsAhead(t: seq<Byte>, q: nat, p: nat, x: Word)
    requires DigitsSoFar(t, q, p, x)
    ensures q <= p <= AfterDigits(t, q)
  {
  }

  lemma DigitsEnd(t: seq<Byte>, q: nat, p: nat, x: Word)
    requires DigitsSoFar(t, q, p, x) && (p < |t| ==> !IsDigit(t[p]))
    ensures q <= p && p == AfterDigits(t, q) && x == Decimal(t[q..p])
  {
  }

  /** `out` was read from `k` to `p` without a quote, and `left` of `n` characters may still be tried. */
  ghost predicate QuotedSoFar(t: seq<Byte>, k: nat, p: nat, left: nat, n: nat, out: seq<Byte>)
  {
    k <= p <= |t| && out == t[k..p] && ClosingQuote(t, p, left) == ClosingQuote(t, k, n)
  }

  lemma NothingQuotedYet(t: seq<Byte>, k: nat, n: nat)
    requires k <= |t|
    ensures QuotedSoFar(t, k, k, n, n, [])
  {
  }

  lemma QuotedGoesOn(t: seq<Byte>, k: nat, p: nat, left: nat, n: nat, out: seq<Byte>)
    requires QuotedSoFar(t, k, p, left, n, out) && left > 0
    ensures p == |t| ==> ClosingQuote(t, k, n) == Starved
    ensures p < |t| && t[p] == QUOTE ==> ClosingQuote(t, k, n) == Matched(p + 1) && k <= p && out == t[k..p]
    ensures p < |t| && t[p] != QUOTE ==> QuotedSoFar(t, k, p + 1, left - 1, n, out + [t[p]])
  {
    if p < |t| {
      SliceSnoc(t, k, p);
    }
  }

  lemma QuoteMissing(t: seq<Byte>, k: nat, p: nat, n: nat, out: seq<Byte>)
    requires QuotedSoFar(t, k, p, 0, n, out)
    ensures ClosingQuote(t, k, n) == Aborts
  {
  }

  /** What a matcher returns: 1, 0, nothing yet, or one of its two panics. */
  datatype Reply = Yes | No | Waiting | Malformed | PushPanic

  function ReplyOf(v: Verdict): Reply
  {
    match v
    case Matched(_) => Yes
    case NoMatch => No
    case Starved => Waiting
    case Aborts => Malformed
    case Overflows => PushPanic
  }

  /** How a loop that only moves on ended: at a character, waiting for input, or in the push panic. */
  datatype Flow = Ready | Dry | Overflow

  class StreamLexer {
    const lex: CircLexer
    ghost const input: seq<Byte>   // everything that has arrived or will arrive
    ghost var at: Place            // where the ring stands in it

    function Size(): nat
      reads lex, lex.q
    {
      lex.q.buf.Length
    }

    ghost predicate Valid()
      reads this, lex, lex.q, lex.q.buf
    {
      lex.Valid() && PlaceOk(input, at) && Sim(lex.View(), Keeper(input, at))
    }

    constructor (size: nat, arriving: seq<Refill>)
      requires SpscRing.RingSize(size) && Arrivals(arriving)
      ensures Valid() && Size() == size && at == Place(0, arriving, 0) && input == FlatAll(arriving)
      ensures fresh(lex) && fresh(lex.q) && fresh(lex.q.buf)
    {
      lex := new CircLexer(size, arriving);
      input := FlatAll(arriving);
      at := Place(0, arriving, 0);
      new;
      assert input[..0] == [] && [] + input == input;
    }

    ghost method Facts()
      requires Valid()
      ensures PlaceOk(input, at) && Size() > 0 && at.have < at.pos + Size()
    {
    }

    method Peek() returns (r: Obs)
      requires Valid()
      modifies this, lex, lex.q, lex.q.buf
      ensures r == Fails <==> !RefillsFit(old(at), old(at).pos, Size())
      ensures r != Fails ==> Valid() && at == Reach(old(at), old(at).pos) && r == At(input, at.pos)
    {
      hide Reach;
      hide RefillsFit;
      hide CircStep;
      hide Sim;
      PeekPlace(input, lex.View(), at);
      r := lex.Peek();
      at := Reach(at, at.pos);
    }

    method Getc() returns (r: Obs)
      requires Valid()
      modifies this, lex, lex.q, lex.q.buf
      ensures r == Fails <==> !RefillsFit(old(at), old(at).pos, Size())
      ensures r != Fails ==>
                && Valid() && r == At(input, old(at).pos)
                && at == Reach(old(at), old(at).pos).(pos := if r.Char? then old(at).pos + 1 else old(at).pos)
    {
      hide Reach;
      hide RefillsFit;
      hide CircStep;
      hide Sim;
      PeekPlace(input, lex.View(), at);
      GetcPlace(input, lex.View(), at);
      r := lex.Getc();
      at := Reach(at, at.pos).(pos := if at.pos < |input| then at.pos + 1 else at.pos);
    }

    /** How many characters can be had without reading in more. */
    method Buffered() returns (k: nat)
      requires Valid()
      ensures k == at.have - at.pos
    {
      BufferedAgrees(lex.View(), Keeper(input, at));
      k := lex.Buffered();
    }

    method Mark() returns (tail: nat)
      requires Valid()
      ensures tail == Slot(at.pos, Size())
    {
      tail := lex.Mark();
    }

    /** `m` is the place the checkpoint was taken at. */
    method Restore(tail: nat, ghost m: nat)
      requires Valid() && Size() > 0 && tail == Slot(m, Size()) && m <= at.have
      modifies this, lex.q
      ensures Valid() && at == old(at).(pos := Landing(old(at).have, m, Size()))
    {
      hide Landing;
      RestoreLands(lex.View(), Keeper(input, at), m);
      lex.Restore(tail);
      at := at.(pos := Landing(at.have, m, Size()));
    }

    /** A peek on the way from `start` to the byte at `x`. */
    method PeekOn(ghost start: Place, ghost x: nat) returns (r: Obs)
      requires Valid() && Onward(at, start, x, Size()) && at.pos <= x
      modifies this, lex, lex.q, lex.q.buf
      ensures r == Fails ==> !RefillsFit(start, x, Size())
      ensures r != Fails ==>
                && Valid() && Onward(at, start, x, Size()) && at.pos == old(at).pos && r == At(input, at.pos)
                && PlaceOk(input, at) && (at.have > at.pos || at.pending == [])
    {
      hide StreamLexer.Valid;
      hide Onward;
      ghost var here := at;
      OnwardStep(here, start, here.pos, here.pos, x, Size());
      Reached(here, here.pos);
      r := Peek();
      if r != Fails {
        Facts();
      }
    }

    /** A getc on the way. */
    method GetcOn(ghost start: Place, ghost x: nat) returns (r: Obs)
      requires Valid() && Onward(at, start, x, Size()) && at.pos <= x
      modifies this, lex, lex.q, lex.q.buf
      ensures r == Fails ==> !RefillsFit(start, x, Size())
      ensures r != Fails ==>
                && Valid() && Onward(at, start, x, Size()) && r == At(input, old(at).pos)
                && at.pos == (if r.Char? then old(at).pos + 1 else old(at).pos)
                && PlaceOk(input, at) && (at.have > old(at).pos || at.pending == [])
    {
      hide StreamLexer.Valid;
      hide Onward;
      ghost var here := at;
      OnwardStep(here, start, here.pos, if here.pos < |input| then here.pos + 1 else here.pos, x, Size());
      Reached(here, here.pos);
      r := Getc();
      if r != Fails {
        Facts();
      }
    }

    method SkipBlankSpace() returns (f: Flow)
      requires Valid()
      modifies this, lex, lex.q, lex.q.buf
      ensures var x := AfterSpaces(input, old(at).pos);
              && (f == Overflow <==> !RefillsFit(old(at), x, Size()))
              && (f != Overflow ==> Valid() && at == Reach(old(at), x).(pos := x) && (f == Ready <==> x < |input|))
    {
      hide StreamLexer.Valid;
      hide Onward;
      hide Reach;
      hide RefillsFit;
      hide FlatAll;
      hide Arrivals;
      Facts();
      ghost var start, x := at, AfterSpaces(input, at.pos);
      OnwardStart(at, at.pos, x, Size());
      while true
        invariant Valid() && PlaceOk(input, at) && at.pos <= x && AfterSpaces(input, at.pos) == x
        invariant Onward(at, start, x, Size())
        decreases |input| - at.pos
      {
        var c := PeekOn(start, x);
        if c == Fails {
          return Overflow;
        }
        if !c.Char? || !IsSpace(c.b) {
          OnwardEnd(at, start, x, Size());
          return if c.Char? then Ready else Dry;
        }
        var d := GetcOn(start, x);
        if d == Fails {
          return Overflow;
        }
      }
    }
  
    /** The loop of `match_eol` that reads in nothing. */
    method EatBufferedEols()
      requires Valid() && PlaceOk(input, at)
      modifies this, lex, lex.q, lex.q.buf
      ensures Valid() && at == old(at).(pos := AfterEols(input, old(at).pos, old(at).have))
    {
      hide StreamLexer.Valid;
      hide FlatAll;
      hide Arrivals;
      ghost var start := at;
      while true
        invariant Valid() && PlaceOk(input, at) && at == start.(pos := at.pos) && start.pos <= at.pos
        invariant AfterEols(input, at.pos, at.have) == AfterEols(input, start.pos, start.have)
        decreases |input| - at.pos
      {
        var k := Buffered();
        if k == 0 { return; }
        Again(at, at.pos, Size());
        var c := Peek();
        if !IsEol(c.b) { return; }
        var _ := Getc();
        Facts();
      }
    }

    /**
     `match_eol`.  After the first line end it eats only what is already buffered, so how far it
     gets inside a run of line ends depends on how the input was cut.
     */
    method MatchEol() returns (r: Reply)
      requires Valid() && PlaceOk(input, at) && Size() > 0
      modifies this, lex, lex.q, lex.q.buf
      ensures r == ReplyOf(EolOnRing(input, old(at), Size()).verdict)
      ensures r != PushPanic ==> Valid() && PlaceOk(input, at) && at == EolOnRing(input, old(at), Size()).at
    {
      hide StreamLexer.Valid;
      hide AfterSpaces;
      hide RefillsFit;
      hide Reach;
      hide FlatAll;
      hide Arrivals;
      hide Landing;
      hide AfterEols;
      ghost var start, x := at, AfterSpaces(input, at.pos);
      ReachOk(input, start, x);
      var mark := Mark();
      var f := SkipBlankSpace();
      if f == Overflow { return PushPanic; }
      Facts();
      if f == Dry { return Waiting; }
      Reached(start, x);
      Again(at, x, Size());
      var c := Peek();
      if !IsEol(c.b) {
        Restore(mark, start.pos);
        return No;
      }
      var _ := Getc();
      EatBufferedEols();
      return Yes;
    }

    method MatchBlankLine() returns (r: Reply)
      requires Valid() && PlaceOk(input, at) && Size() > 0
      modifies this, lex, lex.q, lex.q.buf
      ensures r == ReplyOf(EolOnRing(input, old(at), Size()).verdict)
      ensures r != PushPanic ==> Valid() && PlaceOk(input, at) && at == EolOnRing(input, old(at), Size()).at
    {
      hide StreamLexer.Valid;
      hide RefillsFit;
      hide Reach;
      hide FlatAll;
      hide Arrivals;
      hide Landing;
      hide AfterEols;
      ghost var start, x := at, AfterSpaces(input, at.pos);
      ReachOk(input, start, x);
      var mark := Mark();
      var f := SkipBlankSpace();
      if f == Overflow { return PushPanic; }
      Facts();
      if f == Dry { return Waiting; }
      assert AfterSpaces(input, x) == x;
      Reached(start, x);
      Again(at, x, Size());
      r := MatchEol();
      if r == No {
        Restore(mark, start.pos);
      }
    }
  
    /** Although each blank line ends where the reads happened to end, all of them together end in one place. */
    method SkipBlankLines() returns (f: Flow)
      requires Valid() && PlaceOk(input, at) && Size() > 0
      modifies this, lex, lex.q, lex.q.buf
      ensures var x := Start(input, old(at).pos);
              && (f == Overflow <==> !RefillsFit(old(at), x, Size()))
              && (f != Overflow ==> Valid() && PlaceOk(input, at) && (f == Ready <==> x < |input|))
              && (f == Ready ==> at == Reach(old(at), x).(pos := BackAtLine(input, old(at), Size())))
    {
      hide StreamLexer.Valid;
      hide Onward;
      hide Reach;
      hide RefillsFit;
      hide FlatAll;
      hide Arrivals;
      hide Landing;
      hide Start;
      hide AfterBlankLines;
      hide AfterSpaces;
      ghost var start, x, b := at, Start(input, at.pos), AfterBlankLines(input, at.pos);
      OnwardStart(at, at.pos, x, Size());
      while true
        invariant Valid() && PlaceOk(input, at) && AfterBlankLines(input, at.pos) == b && Start(input, at.pos) == x
        invariant Onward(at, start, x, Size())
        decreases |input| - at.pos
      {
        ghost var here, y := at, AfterSpaces(input, at.pos);
        LineBeforeStart(input, here.pos);
        ReachOk(input, here, y);
        var r := MatchBlankLine();
        OnwardStep(here, start, y, at.pos, x, Size());
        if r == PushPanic { return Overflow; }
        Reached(here, y);
        if r == Waiting {
          OnwardEnd(at, start, x, Size());
          return Dry;
        }
        if r == No {
          BackAt(here, start, x, Size());
          return Ready;
        }
        BlankLineSkipped(input, here.pos, at.pos);
        StartFrom(input, at.pos);
        StartFrom(input, here.pos);
      }
    }

    /** What `match_tok` and `matchv` begin with. */
    method SkipToStart() returns (f: Flow)
      requires Valid() && PlaceOk(input, at) && Size() > 0
      modifies this, lex, lex.q, lex.q.buf
      ensures var c := RingStart(input, old(at), Size());
              && (f == Overflow <==> !RefillsFit(old(at), c, Size()))
              && (f != Overflow ==> Valid() && PlaceOk(input, at) && (f == Ready <==> c < |input|))
              && (f == Ready ==> at == Reach(old(at), c).(pos := c))
    {
      hide StreamLexer.Valid;
      hide Onward;
      hide Reach;
      hide RefillsFit;
      hide FlatAll;
      hide Arrivals;
      hide Start;
      hide BackAtLine;
      hide AfterSpaces;
      ghost var start, x, c := at, Start(input, at.pos), RingStart(input, at, Size());
      f := SkipBlankLines();
      StartOnRing(input, start, Size());
      ReachTwice(start, x, c, Size());
      if f != Ready { return; }
      ReachMoved(Reach(start, x), at.pos, c, Size());
      f := SkipBlankSpace();
      if f != Overflow {
        Facts();
      }
    }

    /** The comparison in `match_tok`, up to where it succeeds or goes to `fail`. */
    method CompareToken(tok: seq<Byte>, ghost start: Place, ghost c: nat) returns (r: Reply)
      requires Valid() && PlaceOk(input, at) && tok != [] && at.pos == c < |input|
      requires Onward(at, start, TokenReach(input, c, tok, 0), Size())
      modifies this, lex, lex.q, lex.q.buf
      ensures var x := TokenReach(input, c, tok, 0);
              && (r == PushPanic <==> !RefillsFit(start, x, Size()))
              && (r != PushPanic ==>
                    && Valid() && PlaceOk(input, at) && at == Reach(start, x).(pos := at.pos)
                    && r == ReplyOf(TokenFrom(input, c, tok, 0)) && (r == Yes ==> at.pos == TokenFrom(input, c, tok, 0).end))
    {
      hide StreamLexer.Valid;
      hide Onward;
      hide Reach;
      hide RefillsFit;
      hide FlatAll;
      hide Arrivals;
      hide PlaceOk;
      ghost var x := TokenReach(input, c, tok, 0);
      Within();
      for i := 0 to |tok|
        invariant Valid() && PlaceOk(input, at) && at.pos == c + i <= |input| && Onward(at, start, x, Size())
        invariant TokenFrom(input, c, tok, i) == TokenFrom(input, c, tok, 0) && TokenReach(input, c, tok, i) == x
        invariant i > 0 ==> at.have > c + i - 1 || at.pending == []
      {
        var ch := GetcOn(start, x);
        if ch == Fails { return PushPanic; }
        Within();
        if !ch.Char? || ch.b != tok[i] {
          OnwardEnd(at, start, x, Size());
          return if ch.Char? then No else Waiting;
        }
      }
      if IsAlpha(tok[|tok| - 1]) {
        var ch := PeekOn(start, x);
        if ch == Fails { return PushPanic; }
        OnwardEnd(at, start, x, Size());
        return if !ch.Char? then Waiting else if IsAlpha(ch.b) then No else Yes;
      }
      OnwardEnd(at, start, x, Size());
      return Yes;
    }

    ghost method Within()
      requires PlaceOk(input, at)
      ensures at.pos <= at.have <= |input|
    {
    }

    /** `match_tok`: its reply and the place it leaves, for every input, chunking and ring size. */
    method MatchTok(tok: seq<Byte>) returns (r: Reply)
      requires Valid() && PlaceOk(input, at) && Size() > 0
      modifies this, lex, lex.q, lex.q.buf
      ensures r == ReplyOf(TokOnRing(input, old(at), tok, Size()).verdict)
      ensures r != PushPanic ==> Valid() && PlaceOk(input, at)
      ensures r == Yes || r == No ==> at == TokOnRing(input, old(at), tok, Size()).at
    {
      hide StreamLexer.Valid;
      hide Onward;
      hide Reach;
      hide RefillsFit;
      hide FlatAll;
      hide Arrivals;
      hide RingStart;
      hide TokenFrom;
      ghost var start, c := at, RingStart(input, at, Size());
      ghost var x := TokenReach(input, c, tok, 0);
      ReachTwice(start, c, x, Size());
      var mark := Mark();
      var f := SkipToStart();
      if f == Overflow { return PushPanic; }
      if f == Dry { return Waiting; }
      if tok == [] { return Malformed; }
      OnwardStart(start, start.pos, x, Size());
      OnwardStep(start, start, c, c, x, Size());
      hide TokenReach;
      r := CompareToken(tok, start, c);
      if r == No {
        Restore(mark, start.pos);
        Facts();
      }
    }

    /** The digit loop of `match_uint`. */
    method MatchDigits() returns (f: Flow, x: Word, i: nat)
      requires Valid() && PlaceOk(input, at)
      modifies this, lex, lex.q, lex.q.buf
      ensures var e := AfterDigits(input, old(at).pos);
              && (f == Overflow <==> !RefillsFit(old(at), e, Size()))
              && (f != Overflow ==>
                    && Valid() && PlaceOk(input, at) && at == Reach(old(at), e).(pos := e) && (f == Ready <==> e < |input|)
                    && x == Decimal(input[old(at).pos..e]) && i == e - old(at).pos)
    {
      hide StreamLexer.Valid;
      hide Onward;
      hide Reach;
      hide RefillsFit;
      hide PlaceOk;
      hide DigitsSoFar;
      hide Decimal;
      hide AfterDigits;
      x, i := 0, 0;
      Within();
      ghost var start, q, e := at, at.pos, AfterDigits(input, at.pos);
      OnwardStart(at, at.pos, e, Size());
      NoDigitsYet(input, q);
      while true
        invariant Valid() && PlaceOk(input, at) && DigitsSoFar(input, q, at.pos, x) && Onward(at, start, e, Size())
        invariant at.pos == q + i
        decreases |input| - at.pos
      {
        Within();
        DigitsAhead(input, q, at.pos, x);
        var c := PeekOn(start, e);
        if c == Fails { return Overflow, x, i; }
        if !c.Char? || !IsDigit(c.b) {
          DigitsEnd(input, q, at.pos, x);
          OnwardEnd(at, start, e, Size());
          return if c.Char? then Ready else Dry, x, i;
        }
        OneMoreDigit(input, q, at.pos, x);
        var d := GetcOn(start, e);
        if d == Fails { return Overflow, x, i; }
        x, i := (10 * x + (d.b - ZERO)) % 0x1_0000_0000, i + 1;
      }
    }

    /** `match_uint`: whatever it replies, it has eaten the blanks and digits and nothing else. */
    method MatchUint() returns (r: Reply, x: Word)
      requires Valid() && PlaceOk(input, at)
      modifies this, lex, lex.q, lex.q.buf
      ensures var p, e := old(at).pos, UintReach(input, old(at).pos);
              && (r == PushPanic <==> !RefillsFit(old(at), e, Size()))
              && (r != PushPanic ==>
                    && Valid() && PlaceOk(input, at) && at == Reach(old(at), e).(pos := e)
                    && r == ReplyOf(Uint(input, p).0) && (r != Waiting ==> x == Uint(input, p).1))
    {
      hide StreamLexer.Valid;
      hide Onward;
      hide Reach;
      hide RefillsFit;
      hide PlaceOk;
      hide Decimal;
      x := 0;
      Within();
      ghost var start, q, e := at, AfterSpaces(input, at.pos), UintReach(input, at.pos);
      ReachTwice(start, q, e, Size());
      var f := SkipBlankSpace();
      if f == Overflow { return PushPanic, x; }
      Facts();
      Reached(start, q);
      ReachMoved(Reach(start, q), q, e, Size());
      if f == Dry { return Waiting, x; }
      var i;
      f, x, i := MatchDigits();
      r := if f == Overflow then PushPanic else if f == Dry then Waiting else if i != 0 then Yes else No;
    }

    /** The character loop of `match_literal_string`, behind the opening quote. */
    method MatchQuoted(nbytes: nat) returns (r: Reply, out: seq<Byte>)
      requires Valid() && PlaceOk(input, at) && 0 < at.pos && (at.have > at.pos - 1 || at.pending == [])
      modifies this, lex, lex.q, lex.q.buf
      ensures var k, x := old(at).pos, QuoteReach(input, old(at).pos, nbytes);
              && (r == PushPanic <==> !RefillsFit(old(at), x, Size()))
              && (r != PushPanic ==>
                    && Valid() && PlaceOk(input, at) && at == Reach(old(at), x).(pos := at.pos)
                    && r == ReplyOf(ClosingQuote(input, k, nbytes))
                    && (r == Yes ==> at.pos == ClosingQuote(input, k, nbytes).end && out == input[k..at.pos - 1]))
    {
      hide StreamLexer.Valid;
      hide Onward;
      hide Reach;
      hide RefillsFit;
      hide PlaceOk;
      hide QuotedSoFar;
      hide ClosingQuote;
      Within();
      ghost var start, k, x := at, at.pos, QuoteReach(input, at.pos, nbytes);
      OnwardStart(at, at.pos, x, Size());
      out := [];
      NothingQuotedYet(input, k, nbytes);
      for i := 0 to nbytes
        invariant Valid() && PlaceOk(input, at) && QuotedSoFar(input, k, at.pos, nbytes - i, nbytes, out)
        invariant 0 < at.pos <= |input| && QuoteReach(input, at.pos, nbytes - i) == x && Onward(at, start, x, Size())
        invariant at.have > at.pos - 1 || at.pending == []
      {
        QuotedGoesOn(input, k, at.pos, nbytes - i, nbytes, out);
        var ch := GetcOn(start, x);
        if ch == Fails { return PushPanic, out; }
        Within();
        if !ch.Char? {
          OnwardEnd(at, start, x, Size());
          return Waiting, out;
        }
        if ch.b == QUOTE {
          OnwardEnd(at, start, x, Size());
          return Yes, out;
        }
        out := out + [ch.b];
      }
      QuoteMissing(input, k, at.pos, nbytes, out);
      OnwardEnd(at, start, x, Size());
      return Malformed, out;
    }

    /** `match_literal_string`; if there is no quote it has eaten the blanks and nothing else. */
    method MatchLiteralString(nbytes: nat) returns (r: Reply, out: seq<Byte>)
      requires Valid() && PlaceOk(input, at)
      modifies this, lex, lex.q, lex.q.buf
      ensures var p, x := old(at).pos, LiteralReach(input, old(at).pos, nbytes);
              && (r == PushPanic <==> !RefillsFit(old(at), x, Size()))
              && (r != PushPanic ==>
                    && Valid() && PlaceOk(input, at) && at == Reach(old(at), x).(pos := at.pos)
                    && r == ReplyOf(Literal(input, p, nbytes).0)
                    && (r == No ==> at.pos == AfterSpaces(input, p))
                    && (r == Yes ==> at.pos == Literal(input, p, nbytes).0.end && out == Literal(input, p, nbytes).1))
    {
      hide StreamLexer.Valid;
      hide Onward;
      hide Reach;
      hide RefillsFit;
      hide PlaceOk;
      hide ClosingQuote;
      hide QuoteReach;
      hide AfterSpaces;
      out := [];
      Within();
      ghost var start, q, x := at, AfterSpaces(input, at.pos), LiteralReach(input, at.pos, nbytes);
      ReachTwice(start, q, x, Size());
      var f := SkipBlankSpace();
      if f == Overflow { return PushPanic, out; }
      Facts();
      if f == Dry { return Waiting, out; }
      Reached(start, q);
      ReachOk(input, start, q);
      Again(at, q, Size());
      var c := Peek();
      if c.b != QUOTE { return No, out; }
      var _ := Getc();
      Facts();
      ReachMoved(Reach(start, q), q + 1, x, Size());
      r, out := MatchQuoted(nbytes);
    }

    method MatchPlainChar(ch: Byte) returns (r: Reply)
      requires Valid() && PlaceOk(input, at)
      modifies this, lex, lex.q, lex.q.buf
      ensures var p, x := old(at).pos, AfterSpaces(input, old(at).pos);
              && (r == PushPanic <==> !RefillsFit(old(at), x, Size()))
              && (r != PushPanic ==>
                    && Valid() && PlaceOk(input, at) && at == Reach(old(at), x).(pos := at.pos)
                    && r == ReplyOf(PlainChar(input, p, ch)) && (r == Yes ==> at.pos == PlainChar(input, p, ch).end))
    {
      hide StreamLexer.Valid;
      hide Onward;
      hide Reach;
      hide RefillsFit;
      hide PlaceOk;
      hide AfterSpaces;
      Within();
      ghost var start, x := at, AfterSpaces(input, at.pos);
      var f := SkipBlankSpace();
      if f == Overflow { return PushPanic; }
      Facts();
      if f == Dry { return Waiting; }
      Reached(start, x);
      ReachOk(input, start, x);
      Again(at, x, Size());
      var c := Getc();
      Facts();
      return if c.b != ch then No else Yes;
    }

    /** One conversion of `matchv`, after its `%`. */
    method MatchConversion(kind: Byte, ghost x: nat) returns (r: Reply, values: seq<Value>)
      requires Valid() && PlaceOk(input, at) && at.have > at.pos && at.pos <= |input|
      requires x == ConversionReach(input, at.pos, kind)
      modifies this, lex, lex.q, lex.q.buf
      ensures var p := old(at).pos;
              && (r == PushPanic <==> !RefillsFit(old(at), x, Size()))
              && (r != PushPanic ==>
                    && Valid() && PlaceOk(input, at) && at == Reach(old(at), x).(pos := at.pos)
                    && r == ReplyOf(Conversion(input, p, kind).0) && values == Conversion(input, p, kind).1
                    && (r == Yes ==> at.pos == Conversion(input, p, kind).0.end))
    {
      hide StreamLexer.Valid;
      hide Onward;
      hide Reach;
      hide RefillsFit;
      hide PlaceOk;
      hide Literal;
      hide LiteralReach;
      hide Decimal;
      values := [];
      if kind == LOWER_S {
        var s;
        r, s := MatchLiteralString(32);
        if r == Yes {
          values := [Text(s)];
        }
      } else if kind == LOWER_U {
        var u;
        r, u := MatchUint();
        if r != Waiting {
          values := [Value.Number(u)];
        }
      } else {
        Again(at, at.pos, Size());
        r := Malformed;
      }
    }

    /** The body of `matchv`'s loop; `next` and `strict` are what it does to `fmt` and `must_match`. */
    method MatchDirective(fmt: seq<Byte>, j: nat, ghost last: nat) returns (r: Reply, values: seq<Value>, next: nat, strict: bool)
      requires Valid() && PlaceOk(input, at) && j < |fmt| && last <= at.pos <= |input| && (at.have > last || at.pending == [])
      modifies this, lex, lex.q, lex.q.buf
      ensures var d, x := DirectiveAt(input, old(at).pos, fmt, j), DirectiveReach(input, old(at).pos, fmt, j, last);
              && (r == PushPanic <==> !RefillsFit(old(at), x, Size()))
              && (r != PushPanic ==>
                    && Valid() && PlaceOk(input, at) && at == Reach(old(at), x).(pos := at.pos)
                    && r == ReplyOf(d.verdict) && values == d.values && next == d.next && strict == d.strict
                    && (r == Yes ==> at.pos == d.verdict.end))
    {
      hide StreamLexer.Valid;
      hide Onward;
      hide Reach;
      hide RefillsFit;
      hide PlaceOk;
      hide Conversion;
      hide ConversionReach;
      hide AfterSpaces;
      values, next, strict := [], j + 1, false;
      ghost var start, x := at, DirectiveReach(input, at.pos, fmt, j, last);
      if IsEol(fmt[j]) {
        Again(at, last, Size());
        return Malformed, values, next, strict;
      }
      ReachTwice(start, start.pos, x, Size());
      Reached(start, start.pos);
      ReachOk(input, start, start.pos);
      var c := Peek();
      if c == Fails { return PushPanic, values, next, strict; }
      Facts();
      if !c.Char? { return Waiting, values, next, strict; }
      if IsEol(c.b) { return No, values, next, strict; }
      if fmt[j] == SPACE { return Yes, values, next, strict; }
      if fmt[j] != PERCENT {
        r := MatchPlainChar(fmt[j]);
        return;
      }
      strict := j != 0;
      if j + 1 == |fmt| { return Malformed, values, next, strict; }
      next := j + 2;
      r, values := MatchConversion(fmt[j + 1], x);
    }

    /** `matchv`: its reply, the values it extracts and the place it leaves, for every input, chunking and ring size. */
    method Matchv(fmt: seq<Byte>) returns (r: Reply, written: seq<Value>)
      requires Valid() && PlaceOk(input, at) && Size() > 0
      modifies this, lex, lex.q, lex.q.buf
      ensures var (a, values) := FormatOnRing(input, old(at), fmt, Size());
              && r == ReplyOf(a.verdict)
              && (r != PushPanic ==> Valid() && PlaceOk(input, at) && written == values)
              && (r == Yes || r == No ==> at == a.at)
    {
      hide StreamLexer.Valid;
      hide Onward;
      hide Reach;
      hide RefillsFit;
      hide PlaceOk;
      hide RingStart;
      hide FormatFrom;
      hide FormatReach;
      Within();
      ghost var start, c := at, RingStart(input, at, Size());
      ghost var x := if c == |input| then c else FormatReach(input, c, fmt, 0, c);
      ReachTwice(start, c, x, Size());
      written := [];
      var mark := Mark();
      var f := SkipToStart();
      if f == Overflow { return PushPanic, written; }
      if f == Dry { return Waiting, written; }
      OnwardStart(start, start.pos, x, Size());
      OnwardStep(start, start, c, c, x, Size());
      Reached(start, c);
      var failed;
      r, written, failed := FollowFormat(fmt, start, c);
      if failed {
        Restore(mark, start.pos);
        Facts();
      }
    }

    /** The loop of `matchv`; `failed` is the jump to its end that restores the start. */
    method FollowFormat(fmt: seq<Byte>, ghost start: Place, ghost c: nat) returns (r: Reply, written: seq<Value>, failed: bool)
      requires Valid() && PlaceOk(input, at) && at.pos == c <= |input| && (at.have > c || at.pending == [])
      requires Onward(at, start, FormatReach(input, c, fmt, 0, c), Size())
      modifies this, lex, lex.q, lex.q.buf
      ensures var o, x := FormatFrom(input, c, fmt, 0, false, []), FormatReach(input, c, fmt, 0, c);
              && (r == PushPanic <==> !RefillsFit(start, x, Size()))
              && (failed <==> r == No)
              && (r != PushPanic ==>
                    && Valid() && PlaceOk(input, at) && at == Reach(start, x).(pos := at.pos)
                    && r == ReplyOf(o.verdict) && written == o.written && (r == Yes ==> at.pos == o.verdict.end))
    {
      hide StreamLexer.Valid;
      hide Onward;
      hide Reach;
      hide RefillsFit;
      hide PlaceOk;
      hide DirectiveAt;
      hide DirectiveReach;
      ghost var x: nat, last: nat := FormatReach(input, c, fmt, 0, c), c;
      var j, must := 0, false;
      written, failed := [], false;
      while j < |fmt|
        invariant Valid() && PlaceOk(input, at) && j <= |fmt| && last <= at.pos <= |input| && !failed
        invariant at.have > last || at.pending == []
        invariant FormatFrom(input, at.pos, fmt, j, must, written) == FormatFrom(input, c, fmt, 0, false, [])
        invariant FormatReach(input, at.pos, fmt, j, last) == x && Onward(at, start, x, Size())
        decreases |fmt| - j
      {
        ghost var here := at;
        ghost var d, y := DirectiveAt(input, here.pos, fmt, j), DirectiveReach(input, here.pos, fmt, j, last);
        var reply, values, next, strict := MatchDirective(fmt, j, last);
        OnwardStep(here, start, y, at.pos, x, Size());
        if reply == PushPanic { return PushPanic, written, false; }
        Reached(here, y);
        must, written := must || strict, written + values;
        if reply != Yes {
          OnwardEnd(at, start, x, Size());
          if reply == No {
            return if must then Malformed else No, written, !must;
          }
          return reply, written, false;
        }
        Within();
        j, last := next, y;
      }
      OnwardEnd(at, start, x, Size());
      r := Yes;
    }
  }

  lemma StartOnRing(t: seq<Byte>, a: Place, n: nat)
    requires n > 0 && PlaceOk(t, a)
    ensures Start(t, a.pos) == |t| ==> RingStart(t, a, n) == |t|
    ensures Start(t, a.pos) < |t| ==> RingStart(t, a, n) == AfterSpaces(t, BackAtLine(t, a, n))
  {
  }

  lemma StartFrom(t: seq<Byte>, p: nat)
    requires p <= |t|
    ensures Start(t, p) == AfterSpaces(t, AfterBlankLines(t, p))
  {
  }

  lemma BackAt(a: Place, b: Place, x: nat, n: nat)
    requires Onward(a, b, x, n)
    ensures Reach(a, x).have == Reach(b, x).have && (forall p :: Reach(a, x).(pos := p) == Reach(b, x).(pos := p))
    ensures RefillsFit(a, x, n) <==> RefillsFit(b, x, n)
  {
  }
}
