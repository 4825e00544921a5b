/** What checkpoints are for: after a restore the same characters are read again, whatever happened in between. */
module LexerRewind {
  import opened Words
  import opened Lexer
  import opened RingPlace
  import Matcher

  /** The whole input, read in or still to come. */
  function Whole(s: Simple): seq<Byte>
  {
    s.stream + FlatAll(s.pending)
  }

  function SimpleAfter(s: Simple, ops: seq<Op>): Simple
    decreases |ops|
  {
    if ops == [] then s else SimpleAfter(SimpleStep(s, ops[0]).0, ops[1..])
  }

  lemma FillKeeps(s: Simple)
    requires SimpleOk(s)
    ensures var t := SimpleFill(s).0;
            SimpleOk(t) && t.pos == s.pos && t.marks == s.marks && (SimpleFill(s).1 == Silent ==> t.pos < |t.stream|)
  {
  }

  lemma StepKeeps(s: Simple, op: Op)
    requires SimpleOk(s)
    ensures var t := SimpleStep(s, op).0; SimpleOk(t) && Whole(t) == Whole(s) && s.marks <= t.marks
  {
    hide SimpleFill;
    FillKeeps(s);
    Matcher.SimpleReadsStream(s);
    assert op == Getc || op == Peek ==> op in [Getc, Peek];
  }

  lemma {:induction false} RunKeeps(s: Simple, ops: seq<Op>)
    requires SimpleOk(s)
    ensures var t := SimpleAfter(s, ops); SimpleOk(t) && Whole(t) == Whole(s) && s.marks <= t.marks
    decreases |ops|
  {
    hide SimpleOk;
    hide SimpleStep;
    hide Whole;
    if ops != [] {
      StepKeeps(s, ops[0]);
      RunKeeps(SimpleStep(s, ops[0]).0, ops[1..]);
    }
  }

  function Getcs(n: nat): seq<Op>
  {
    if n == 0 then [] else [Getc] + Getcs(n - 1)
  }

  /** The next `n` characters from `p` on, as many as there are, and waiting from then on. */
  function Text(t: seq<Byte>, p: nat, n: nat): seq<Obs>
  {
    seq(n, i requires 0 <= i < n => if p + i < |t| then Char(t[p + i]) else Waits)
  }

  lemma TextSplits(t: seq<Byte>, p: nat, n: nat)
    requires p <= |t| && n > 0
    ensures Text(t, p, n) == [if p < |t| then Char(t[p]) else Waits] + Text(t, if p < |t| then p + 1 else p, n - 1)
  {
  }

  /** One getc: what it shows and where it leads. */
  lemma GetcReads(s: Simple)
    requires SimpleOk(s)
    ensures var (t, o) := SimpleStep(s, Getc);
            && SimpleOk(t) && Whole(t) == Whole(s) && s.pos <= |Whole(s)|
            && o == (if s.pos < |Whole(s)| then Char(Whole(s)[s.pos]) else Waits)
            && t.pos == (if s.pos < |Whole(s)| then s.pos + 1 else s.pos)
  {
    Matcher.SimpleReadsStream(s);
    StepKeeps(s, Getc);
    hide SimpleStep;
  }

  /** Getc reads the whole input in order. */
  lemma {:induction false} GetcsRead(s: Simple, n: nat)
    requires SimpleOk(s)
    ensures SimpleRun(s, Getcs(n)) == Text(Whole(s), s.pos, n)
    decreases n
  {
    hide SimpleStep;
    hide SimpleOk;
    hide Whole;
    if n > 0 {
      GetcReads(s);
      GetcsRead(SimpleStep(s, Getc).0, n - 1);
      assert Getcs(n)[1..] == Getcs(n - 1);
      TextSplits(Whole(s), s.pos, n);
      hide Text;
    }
  }

  /**
   A checkpoint, any operations and a restore to it: the characters read from there on are those that
   would have been read at the checkpoint.
   */
  lemma {:induction false} RestoreRereads(s: Simple, ops: seq<Op>, n: nat)
    requires SimpleOk(s)
    ensures var there := SimpleAfter(s, [Checkpoint] + ops);
            var back := SimpleStep(there, Restore(|s.marks|)).0;
            SimpleRun(back, Getcs(n)) == SimpleRun(s, Getcs(n))
  {
    var marked := SimpleStep(s, Checkpoint).0;
    var there := SimpleAfter(s, [Checkpoint] + ops);
    assert ([Checkpoint] + ops)[1..] == ops;
    StepKeeps(s, Checkpoint);
    RunKeeps(marked, ops);
    assert there.marks[|s.marks|] == marked.marks[|s.marks|] == s.pos;
    StepKeeps(there, Restore(|s.marks|));
    GetcsRead(s, n);
    GetcsRead(SimpleStep(there, Restore(|s.marks|)).0, n);
  }
}
