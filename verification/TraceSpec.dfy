/**
 The trace format of lab 5: log lines as text, lines as (sender, byte) entries, entries as words
 and words as boot messages.  Reading is total: every way the reader can die is `Dies`.
 */
module TraceSpec {
  import opened Words

  const NEWLINE: Byte := 10
  const SPACE: Byte := 32
  const HASH: Byte := 35
  const COMMA: Byte := 44
  const CHAR_0: Byte := 48
  const CHAR_X: Byte := 120
  const PI: Byte := 112
  const UNIX: Byte := 117

  datatype Entry = Entry(sender: Byte, v: Byte)

  // ---------------------------------------------------------------- lines

  predicate IsSpaceChar(c: Byte) { c == SPACE || 9 <= c <= 13 }

  /** `hex2int`, with -1 for the characters it dies on. */
  function HexValue(c: Byte): int
  {
    if 48 <= c <= 57 then c - 48
    else if 65 <= c <= 70 then c - 55
    else if 97 <= c <= 102 then c - 87
    else -1
  }

  /** One entry as text. */
  function PrintEntry(e: Entry): (s: seq<Byte>)
    ensures |s| == 6
  {
    [e.sender, COMMA, CHAR_0, CHAR_X, DigitChar(e.v / 16), DigitChar(e.v % 16)]
  }

  /** What may follow an entry on its line: blanks, then perhaps a comment. */
  predicate IsTail(tail: seq<Byte>, comment: bool)
  {
    tail == [] ||
    (tail[0] != NEWLINE && (comment || tail[0] == HASH || IsSpaceChar(tail[0])) &&
     IsTail(tail[1..], comment || tail[0] == HASH))
  }

  /** `eat_line` from position `i`: where the next line starts, or -1. */
  function AfterLine(t: seq<Byte>, i: nat, comment: bool): (r: int)
    ensures r == -1 || i < r <= |t|
    decreases |t| - i
  {
    if i >= |t| then -1
    else if t[i] == NEWLINE then i + 1
    else if comment || t[i] == HASH || IsSpaceChar(t[i]) then AfterLine(t, i + 1, comment || t[i] == HASH)
    else -1
  }

  datatype Read = End | Dies | Got(e: Entry, next: nat)

  /** `log_read_ent` at position `i` of the log. */
  function ReadEntry(t: seq<Byte>, i: nat): (r: Read)
    ensures r.Got? ==> i < r.next <= |t|
  {
    if i >= |t| then End
    else if |t| < i + 6 || t[i + 1] != COMMA || t[i + 2] != CHAR_0 || t[i + 3] != CHAR_X then Dies
    else
      var hi, lo := HexValue(t[i + 4]), HexValue(t[i + 5]);
      var next := AfterLine(t, i + 6, false);
      if hi < 0 || lo < 0 || next < 0 then Dies else Got(Entry(t[i], hi * 16 + lo), next)
  }

  function Prepend(e: Entry, es: Option<seq<Entry>>): Option<seq<Entry>>
  {
    if es.None? then None else Some([e] + es.value)
  }

  /** All entries from position `i` on, or nothing if some line is malformed. */
  function Entries(t: seq<Byte>, i: nat): Option<seq<Entry>>
    decreases |t| - i
  {
    match ReadEntry(t, i)
    case End => Some([])
    case Dies => None
    case Got(e, next) => Prepend(e, Entries(t, next))
  }

  // ---------------------------------------------------------------- messages

  const GET_PROG_INFO: Word := 0x11112222
  const PUT_PROG_INFO: Word := 0x33334444
  const GET_CODE: Word := 0x55556666
  const PUT_CODE: Word := 0x77778888
  const BOOT_SUCCESS: Word := 0x9999AAAA
  const BOOT_ERROR: Word := 0xBBBBCCCC
  const BAD_CODE_ADDR: Word := 0xdeadbeef
  const BAD_CODE_CKSUM: Word := 0xfeedface

  datatype Msg =
    | GetProgInfo
    | BootError
    | BadCodeAddr
    | BadCodeCksum
    | GetCode(crc32: Word)
    | BootSuccess(output: seq<Byte>)
    | PutProgInfo(armbase: Word, nbytes: Word, crc: Word)
    | PutCode(code: seq<Byte>)

  predicate From(es: seq<Entry>, sender: Byte)
  {
    forall e <- es :: e.sender == sender
  }

  function Values(es: seq<Entry>): (bs: seq<Byte>)
    ensures |bs| == |es|
  {
    seq(|es|, i requires 0 <= i < |es| => es[i].v)
  }

  function Sent(sender: Byte, bs: seq<Byte>): (es: seq<Entry>)
    ensures |es| == |bs| && From(es, sender) && Values(es) == bs
  {
    seq(|bs|, i requires 0 <= i < |bs| => Entry(sender, bs[i]))
  }

  /** The next `n` bytes, if they are there and all come from `sender`. */
  function Take(es: seq<Entry>, sender: Byte, n: nat): Option<seq<Byte>>
  {
    if n <= |es| && From(es[..n], sender) then Some(Values(es[..n])) else None
  }

  /** `log_ent32_exp`. */
  function TakeWord(es: seq<Entry>, sender: Byte): Option<Word>
  {
    var bs := Take(es, sender, 4);
    if bs.None? then None else Some(FromLittleEndian(bs.value))
  }

  datatype Step = Stop | Parsed(msg: Msg, used: nat, nbytes: Word)

  /** One turn of `parse_trace`'s message loop; `n` is the program size announced so far. */
  function ParseOne(es: seq<Entry>, n: Word): (s: Step)
    requires es != []
    ensures s.Parsed? ==> 4 <= s.used <= |es|
  {
    var op := TakeWord(es, es[0].sender);
    if op.None? then Stop
    else
      var rest := es[4..];
      var w := op.value;
      if w == GET_PROG_INFO then Parsed(GetProgInfo, 4, n)
      else if w == BOOT_ERROR then Parsed(BootError, 4, n)
      else if w == BAD_CODE_ADDR then Parsed(BadCodeAddr, 4, n)
      else if w == BAD_CODE_CKSUM then Parsed(BadCodeCksum, 4, n)
      else if w == GET_CODE then
        var crc := TakeWord(rest, PI);
        if crc.None? then Stop else Parsed(GetCode(crc.value), 8, n)
      else if w == BOOT_SUCCESS then
        if From(rest, PI) then Parsed(BootSuccess(Values(rest)), |es|, n) else Stop
      else if w == PUT_PROG_INFO then ParseProgInfo(es, n)
      else if w == PUT_CODE then
        var code := Take(rest, UNIX, n);
        if n == 0 || code.None? then Stop else Parsed(PutCode(code.value), 4 + n, n)
      else Stop
  }

  function ParseProgInfo(es: seq<Entry>, n: Word): (s: Step)
    requires |es| >= 4
    ensures s.Parsed? ==> s.msg.PutProgInfo? && 4 <= s.used <= |es|
  {
    var base := TakeWord(es[4..], UNIX);
    if base.None? then Stop
    else
      var size := TakeWord(es[8..], UNIX);
      if size.None? then Stop
      else
        var crc := TakeWord(es[12..], UNIX);
        if crc.None? || (n != 0 && n != size.value) then Stop
        else Parsed(PutProgInfo(base.value, size.value, crc.value), 16, size.value)
  }

  /** The message loop of `parse_trace`. */
  function ParseAll(es: seq<Entry>, n: Word): Option<seq<Msg>>
    decreases |es|
  {
    if es == [] then Some([])
    else
      match ParseOne(es, n)
      case Stop => None
      case Parsed(m, used, n1) =>
        var ms := ParseAll(es[used..], n1);
        if ms.None? then None else Some([m] + ms.value)
  }

  /** The loop that skips what a previous connection left behind. */
  function Skip(es: seq<Entry>): (r: Option<seq<Entry>>)
    ensures r.Some? ==> |r.value| <= |es|
    decreases |es|
  {
    var w := TakeWord(es, PI);
    if w.None? then None
    else if w.value == GET_PROG_INFO then Some(es)
    else Skip(es[1..])
  }

  function ParseTrace(es: Option<seq<Entry>>): Option<seq<Msg>>
  {
    if es.None? then None
    else
      var start := Skip(es.value);
      if start.None? then None else ParseAll(start.value, 0)
  }
}
