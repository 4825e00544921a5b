# A Dafny model of the CS140E course code

This project models the parts of the CS140E repository whose code is complete and whose behaviour
is hard to see by reading it, and proves what they promise. `dafny verify dfyconfig.toml` checks
everything.

| files | what they model |
|---|---|
| `RemoteMemory`, `RemoteMemorySafety`, `RemoteMemoryCode` | a Unix process doing `put32`/`get32` on a Pi over a serial line: two step machines over two FIFO byte channels, and the loops of both programs |
| `SpscRing`, `SpscCalls`, `Circular` | the lock-free ring, once interleaved at every field access, with what each call achieves, and once as the object one caller uses |
| `Lexer`, `LexerCode`, `LexerRewind` | the rewindable lexer over the ring against the lexer that keeps everything, and what rewinding gives |
| `RingPlace` | where the ring lexer stands in the whole input, for every chunking and every checkpoint |
| `MatchSpec`, `MatchMeans`, `MatchOnRing`, `Matcher`, `MatchRender` | the backtracking matchers on the whole input stream, which text they match, over the ring lexer, and their inverse |
| `RandomSpec`, `Random` | the additive-feedback random number generator with its state arrays |
| `CrcTable`, `Crc32` | the table-driven CRC-32 against bitwise polynomial division |
| `TraceSpec`, `TraceProofs`, `TraceMeans`, `Trace` | the byte log, its printer, and the parser up to boot messages |
| `FselSpec`, `FselProofs`, `FselAlone`, `Fsel` | sixteen self-filling files with poll handles behind one mutex, and one of them on its own |
| `ThreadSpec`, `ThreadQueue`, `Threads` | the intrusive queue and the thread-block cache built on two of them |
| `PrintkSpec`, `PrintkMeans`, `Printk` | the bounded formatter, its text and its number printer |
| `Words`, `ModArith` | bytes, 32-bit words, and indices that go round |

Objects whose fields the C code updates are classes, their loops are loops, and each method is
proved against a function on values; the theorems are about those functions. A C `panic`, `assert`,
`die` or blocking read is a result, not a precondition. Concurrency is a list of atomic steps, and
"every interleaving" is "every list of enabled steps". What the functions themselves compute is said
a second time without them, with the numbers and characters of the C code, in `SpscCalls`,
`MatchMeans`, `FselAlone`, `PrintkMeans`, `TraceMeans`, `RandomSpec.InitstateDraws` and
`RemoteMemory.OnTheWire`.

Things the proofs show about the code that its comments do not say:

- The ready loop of `fake-pi.c` may send PI_READY more than once when the Pi is slow to answer; the
  Pi consumes one and panics on the next, and the panic's unframed text then reaches a waiting
  `get32` (`PanicIffSurplusPing`, `TornIffSurplusPing`, `MismatchIffSurplusPing`, with a run in
  `SurplusPingHappens`). Only pings that are not lost while the Pi boots count
  (`LostPingIsReplaced`).
- On the Unix side `read_exact` is one `read`, and the line is set up to return as soon as a byte is
  there, so `get32` panics when the four bytes of its reply have not all arrived (`ShortReadIffFewer`,
  `CutIffNotArrived`, with a run in `ShortReadHappens`).
- `cq_nspace` counts the slot that must stay free, so `cq_push_n` panics instead of refusing when
  asked for exactly that many (`PushN`). The assertion that ends `cq_push_n` fires when the consumer
  has been quick (`ClosingFiresIff`, `ClosingFires`).
- `cq_nelem` is right only for ring sizes that divide 2^32 (`NelemExactIffSizeDivides`).
- The ring lexer loses data, silently on restore, beyond CQ_N - 1 bytes (`RefinesIffFits`,
  `RingForgets`), so a failed `match_tok` can lose input (`MatchTokRightIff`, `NoMatchLosesInput`).
- Where `match_eol` stops depends on how the input was cut into reads (`EolEndDependsOnCut`); what is
  built on it does not.
- `pi_srandom_r` produces zero words for exactly two seeds, 2147483647 and 4294967294.
- `parse_trace` does not look at who sent an opcode (`EntriesReappearIff`, `OpcodeFromWrongSide`), and
  `wr_log_byte` writes nothing for a sender of 0 (`WrittenReadsBackIff`).
- `va_printk` reads a width modulo 2^32, so `%4294967297d` is accepted as `%1d` (`AcceptedIff`,
  `WideIsOne`).
- A handle on a full fsel file is not notified until somebody reads (`FullFileIsNotNotified`,
  `FullFileHappens`).

## Model

| member | source | states |
|---|---|---|
| `RemoteMemorySafety.RemoteMemoryIsLocal` | labs/11-fuse/2-fake-pi/unix-side/fake-pi.c:113-137 | For every script and every interleaving of Unix, Pi, wire, loss and console steps in which at most one ping is not lost: the gets that have returned are, in issue order, what one local memory answers after all earlier puts, although puts are not acknowledged; `expect_op` never mismatches and the Pi never panics |
| `RemoteMemorySafety.GetReturnsLastPut` | labs/11-fuse/2-fake-pi/unix-side/fake-pi.c:123-137 | With plain RAM behind the Pi, a `get32` that has returned gave the value of the last `put32` to that address in issue order, or the initial contents |
| `RemoteMemorySafety.RamHoldsLastPut` | labs/11-fuse/2-fake-pi/pi-side/pi-vmm.c:104-114 | Loading after any calls on RAM yields the last value put to the address |
| `RemoteMemorySafety.FramesNeverTear` | labs/11-fuse/2-fake-pi/unix-side/fake-pi.c:68-77 | As long as the Pi has not panicked, which with one ping is always: the bytes in flight continue the frame being read, go on in whole frames and end in at most one partial frame that the Pi's pending bytes complete; so `get_op` starts on a frame boundary |
| `RemoteMemorySafety.TornIffSurplusPing` | libpi/libc/assert.h:15-19 | Once the program runs, some continuation tears the stream of frames (the raw text of the Pi's panic stands where an opcode is due) if and only if more than one PI_READY was sent and not lost |
| `RemoteMemorySafety.MismatchIffSurplusPing` | labs/11-fuse/2-fake-pi/unix-side/fake-pi.c:79-84 | A waiting `get32` can be answered by panic text, so that `expect_op` panics, if and only if more than one PI_READY was sent and not lost |
| `RemoteMemorySafety.NoAnswerAfterSurplusPing` | labs/11-fuse/2-fake-pi/unix-side/fake-pi.c:123-137 | After two pings that were not lost no `get32` ever returns, in any run |
| `RemoteMemorySafety.SurplusPingHappens` | labs/11-fuse/2-fake-pi/unix-side/fake-pi.c:181-187 | A run in which the program starts after two pings, none lost |
| `RemoteMemorySafety.LostPingIsReplaced` | labs/11-fuse/2-fake-pi/pi-side/pi-vmm.c:71-78 | A run in which the first ping is lost while the Pi boots and the program starts after the second, with one ping counting |
| `RemoteMemorySafety.PanicIffSurplusPing` | labs/11-fuse/2-fake-pi/unix-side/fake-pi.c:181-187 | Once the program runs, some continuation makes the Pi reach its `default` panic if and only if more than one PI_READY was sent and not lost |
| `RemoteMemorySafety.SurplusPingPanics` | labs/11-fuse/2-fake-pi/pi-side/pi-vmm.c:126-127 | From every state reached with more than one ping not lost a panicking continuation exists |
| `RemoteMemorySafety.EveryRunKeepsInv` | labs/11-fuse/2-fake-pi/pi-side/pi-vmm.c:84-129 | After every run: with one ping not lost, frames whole, Pi on track with the issued calls, owed replies in flight, handshake shape; with more, a surplus ping next at the Pi, or its panic text behind whole frames, or a Unix side that has given up on that text |
| `RemoteMemorySafety.EveryRunFinishes` | labs/11-fuse/2-fake-pi/unix-side/fake-pi.c:123-137 | After a one-ping handshake every continuation is no longer than the pending work plus five steps per printed character; when only printing is possible the whole script has been done with the local answers and the local final memory, or the Unix side has panicked on a short read; and it has been done if every word read had arrived whole |
| `RemoteMemorySafety.RunsAreBounded` | labs/11-fuse/2-fake-pi/unix-side/fake-pi.c:68-77 | The measure on pending bytes pays for every step of every run |
| `RemoteMemorySafety.NeverStuck` | labs/11-fuse/2-fake-pi/unix-side/fake-pi.c:68-77 | While the Unix side still waits or has calls to make and has not panicked on a short read, a step other than printing can be taken |
| `RemoteMemorySafety.ShortReadIffFewer` | libunix/read-exact.c:7-24 | At the read of a reply's word `get32` panics if and only if fewer than four bytes are there |
| `RemoteMemorySafety.ShortReadIffCut` | libunix/read-exact.c:7-24 | A run ends in that panic if and only if one of its word reads found fewer than four bytes |
| `RemoteMemorySafety.CutIffNotArrived` | labs/11-fuse/2-fake-pi/unix-side/fake-pi.c:133-134 | A waiting `get32` can still panic on a short read if and only if its reply has not arrived whole |
| `RemoteMemorySafety.ShortReadHappens` | labs/11-fuse/2-fake-pi/unix-side/fake-pi.c:133-134 | With one ping and nothing lost, the first call of any script that begins with a get can panic so |
| `RemoteMemorySafety.OpIsExpected` | labs/11-fuse/2-fake-pi/unix-side/fake-pi.c:79-84 | A byte read where an opcode is due is PI_PRINT_CHAR or the opcode expected, even when printed characters equal opcodes |
| `RemoteMemorySafety.ReplyIsAnswer` | labs/11-fuse/2-fake-pi/unix-side/fake-pi.c:133-134 | A word that is read whole is what the local memory answers, and nothing else is owed after it |
| `RemoteMemory.ScanInvertsEncode` | labs/11-fuse/2-fake-pi/pi-side/pi-vmm.c:56-61 | Whatever frames the Pi writes, the Unix reader finds exactly those frames, whatever the characters printed |
| `RemoteMemory.FeedCall` | labs/11-fuse/2-fake-pi/pi-side/pi-vmm.c:104-114 | The Pi's byte-at-a-time handling of one whole request is the local memory's handling of the call, with the reply frame of a get |
| `RemoteMemory.OnTheWire` | libpi/pi-message.h:17-50 | The bytes themselves: put32 is 14, the address and the value, get32 is 15 and the address, its reply 16 and the value, a printed character 3 and the character, ready 1; every word low byte first |
| `RemoteMemory.PiReads` | labs/11-fuse/2-fake-pi/pi-side/pi-vmm.c:88-128 | What the Pi does with those bytes: 14 and eight bytes store, 15 and four load and reply, 4 reboots, any other opcode panics |
| `RemoteMemory.FeedConcat` | labs/11-fuse/2-fake-pi/pi-side/pi-vmm.c:84-129 | Handling two runs of bytes one after the other is handling their concatenation: delivery boundaries do not matter to the Pi |
| `RemoteMemory.ScanConcat` | labs/11-fuse/2-fake-pi/unix-side/fake-pi.c:68-77 | The same for the Unix reader |
| `RemoteMemoryCode.Port.WriteExact` | labs/11-fuse/2-fake-pi/pi-side/pi-vmm.c:35-39 | The loop appends exactly the given bytes, in order |
| `RemoteMemoryCode.Port.ReadExact` | labs/11-fuse/2-fake-pi/pi-side/pi-vmm.c:30-34 | The Pi's loop takes the next n bytes in order, or all there are while the sender is silent |
| `RemoteMemoryCode.Port.ReadOnce` | libunix/read-exact.c:7-24 | The Unix side's read takes what is there, up to n bytes, and succeeds if and only if that is all n |
| `RemoteMemoryCode.Port.GetOp` | labs/11-fuse/2-fake-pi/unix-side/fake-pi.c:68-77 | The loop returns the first opcode that is not PI_PRINT_CHAR, echoes every printed character before it, and leaves the rest unread |
| `RemoteMemoryCode.Port.Put32` | labs/11-fuse/2-fake-pi/unix-side/fake-pi.c:113-121 | Sends the put request and waits for nothing |
| `RemoteMemoryCode.Port.Get32` | labs/11-fuse/2-fake-pi/unix-side/fake-pi.c:123-137 | Sends the get request; returns the reply's word, panics on another opcode or when only part of the word is there, blocks while nothing is |
| `RemoteMemoryCode.OpFollowsConsoleOutput` | labs/11-fuse/2-fake-pi/unix-side/fake-pi.c:68-77 | Any console output is echoed in full and skipped, opcode values among its characters included |
| `RemoteMemoryCode.GetSkipsConsoleOutput` | labs/11-fuse/2-fake-pi/unix-side/fake-pi.c:123-137 | A reply behind any console output is returned as sent |
| `RemoteMemoryCode.GetIsStepMachine` | labs/11-fuse/2-fake-pi/unix-side/fake-pi.c:123-137 | The code of `get32` and the step machine's reader do the same with any bytes: same result, same echo, same panics, same blocking |
| `RemoteMemoryCode.ServeGet` | labs/11-fuse/2-fake-pi/pi-side/pi-vmm.c:104-109 | The PI_GET32 case does what the byte transducer says, including running out of bytes half way |
| `RemoteMemoryCode.ServePut` | labs/11-fuse/2-fake-pi/pi-side/pi-vmm.c:110-114 | The PI_PUT32 case likewise |
| `RemoteMemoryCode.ServeOne` | labs/11-fuse/2-fake-pi/pi-side/pi-vmm.c:89-128 | One turn of the opcode loop likewise; a panic writes its text without frames |
| `RemoteMemoryCode.Serve` | labs/11-fuse/2-fake-pi/pi-side/pi-vmm.c:84-129 | The whole loop on all bytes received has the state, memory and output, panic text included, of the byte transducer the step machine uses |
| `SpscRing.NothingLostOrReordered` | libpi/libc/circular.h:57-140 | One producer and one consumer interleaved at every field access, for every ring size dividing 2^32: popped followed by stored is pushed, at all times; `cq_pop_n_noblk` never reaches the empty panic; `cq_push_n` of at most CQ_N - 1 - nelem elements, counted when it starts, never reaches the full panic. What each call pushes and pops is in the four lemmas below |
| `SpscCalls.PushNAllOrNothing` | libpi/libc/circular.h:129-140 | In every interleaving, a `cq_push_n` that is over has pushed exactly its elements in order behind what was there, or nothing; nothing if and only if the count it took was too small for them |
| `SpscCalls.PushAllOrNothing` | libpi/libc/circular.h:86-93 | The same for `cq_push`: its element, or nothing if and only if it found the queue full |
| `SpscCalls.PopNAllOrNothing` | libpi/libc/circular.h:103-113 | In every interleaving, a `cq_pop_n_noblk` that is over has popped exactly the next n elements pushed, or none; none if and only if the count it took was below n |
| `SpscCalls.PopAllOrNothing` | libpi/libc/circular.h:66-73 | The same for `cq_pop_nonblock`: the next element, or none if and only if it found the queue empty |
| `SpscCalls.CallsEnd` | libpi/libc/circular.h:57-140 | Every step of a side brings its call nearer to its end and the other side cannot put that off, so every call is over after a bounded number of its own steps |
| `SpscRing.NoUnreadSlotOverwritten` | libpi/libc/circular.h:86-93 | The slot the producer is about to write holds no element that is still unread |
| `SpscRing.CountIsExact` | libpi/libc/circular.h:62-62 | `cq_nelem` on a possibly stale head is exactly the number of elements between it and the tail, so it is a lower bound for the consumer |
| `SpscRing.NelemExactIffSizeDivides` | libpi/libc/circular.h:62-62 | 32-bit subtraction and remainder count correctly for all index pairs if and only if the ring size divides 2^32 |
| `SpscRing.EmptyTestKeeps` | libpi/libc/circular.h:108-113 | After a sufficient count the emptiness test inside `cq_pop` cannot succeed |
| `SpscRing.FullTestKeeps` | libpi/libc/circular.h:129-140 | After a count that left the free slot alone the fullness test inside `cq_push` cannot succeed |
| `SpscRing.SpaceCountKeeps` | libpi/libc/circular.h:63-63 | The space counted from a possibly stale tail stays a lower bound |
| `SpscRing.ClosingFiresIff` | libpi/libc/circular.h:137-138 | The assertion that ends `cq_push_n` fires if and only if the consumer has popped everything by the time it reads the tail |
| `SpscRing.ClosingFires` | libpi/libc/circular.h:137-138 | A run in which it fires |
| `SpscRing.StepKeeps` | libpi/libc/circular.h:57-93 | Every single field access of either side keeps the invariant |
| `SpscRing.RunKeeps` | libpi/libc/circular.h:57-93 | So does every interleaving |
| `Circular.CircularQueue.constructor` | libpi/libc/circular.h:153-164 | A fresh ring is empty |
| `Circular.CircularQueue.IsEmpty` | libpi/libc/circular.h:57-57 | True exactly when nothing is queued |
| `Circular.CircularQueue.IsFull` | libpi/libc/circular.h:60-60 | True exactly at size - 1 elements |
| `Circular.CircularQueue.Nelems` | libpi/libc/circular.h:62-62 | The number of queued elements |
| `Circular.CircularQueue.Nspace` | libpi/libc/circular.h:63-63 | Size minus elements: one more than can be pushed |
| `Circular.CircularQueue.Push` | libpi/libc/circular.h:86-93 | Succeeds exactly when not full, and then writes one slot and advances the head; the queue is otherwise unchanged |
| `Circular.CircularQueue.PopNonblock` | libpi/libc/circular.h:66-73 | Takes the oldest element, or reports an empty queue and changes nothing |
| `Circular.CircularQueue.Peek` | libpi/libc/circular.h:96-101 | Shows the oldest element without taking it |
| `Circular.CircularQueue.PopN` | libpi/libc/circular.h:103-113 | All n elements in order, or none and nothing changed |
| `Circular.CircularQueue.PeekN` | libpi/libc/circular.h:116-126 | The first n elements, with the ring left exactly as it was |
| `Circular.CircularQueue.PushN` | libpi/libc/circular.h:129-140 | All stored when they fit beside the free slot; refused without change when more than the size; and panics at exactly the one count `cq_nspace` wrongly admits |
| `Circular.PushAllAppends` | libpi/libc/circular.h:129-140 | Pushing that fits appends to the contents |
| `Circular.PopTakesFirst` | libpi/libc/circular.h:66-73 | Popping removes the first of the contents |
| `Lexer.RingLexerRefines` | labs/10-esp8266/libesp/esp-lex-circ.h:25-36 | For any chunking and any sequence of getc, peek, checkpoint, restore and count, the ring lexer's results equal the keep-everything lexer's as long as every refill and every restored checkpoint's distance to the newest byte is at most CQ_N - 1 |
| `Lexer.RefinesIffFits` | labs/10-esp8266/libesp/esp-lex-circ.h:25-36 | That bound is exact: it holds if and only if all prefixes of the operations, followed by a count, agree |
| `Lexer.OverrunIsVisible` | labs/10-esp8266/libesp/esp-lex-circ.h:33-36 | The first operation beyond the bound shows in its own result or in the next count |
| `Lexer.StepAgrees` | labs/10-esp8266/libesp/esp-lex-circ.c:5-23 | Each single operation within the bound agrees and keeps the two lexers in step |
| `Lexer.StartInStep` | labs/10-esp8266/libesp/esp-lex-circ.c:38-44 | Freshly initialised lexers are in step |
| `Lexer.RingForgets` | labs/10-esp8266/libesp/esp-lex-circ.h:25-27 | A ring of two slots, two refills of one byte and a checkpoint held over both: the bound is broken and a prefix of the operations shows it |
| `LexerRewind.RestoreRereads` | labs/10-esp8266/libesp/esp-lex-simple.h:35-49 | Checkpoint, any operations, restore: the keep-everything lexer then reads the characters it would have read at the checkpoint; by RingLexerRefines so does the ring lexer while everything fits |
| `LexerRewind.GetcsRead` | labs/10-esp8266/libesp/esp-lex-simple.c:5-10 | Any number of getc calls read the whole input in order from the position on and wait at its end |
| `LexerCode.CircLexer.Readin` | labs/10-esp8266/libesp/esp-lex.c:16-41 | The refill loop pushes every read in order, or hits the push panic exactly when the refill does not fit |
| `LexerCode.CircLexer.EnsureData` | labs/10-esp8266/libesp/esp-lex-circ.c:14-17 | What getc and peek share: wait for and read a refill when dry |
| `LexerCode.CircLexer.Getc` | labs/10-esp8266/libesp/esp-lex-circ.c:5-11 | Result and new state are those of the ring model's getc |
| `LexerCode.CircLexer.Peek` | labs/10-esp8266/libesp/esp-lex-circ.c:14-23 | Result and new state are those of the ring model's peek |
| `LexerCode.CircLexer.Buffered` | labs/10-esp8266/libesp/esp-lex-circ.h:16-16 | The count is that of the ring model |
| `LexerCode.CircLexer.Mark` | labs/10-esp8266/libesp/esp-lex-circ.h:30-32 | A checkpoint is the current tail |
| `LexerCode.CircLexer.Restore` | labs/10-esp8266/libesp/esp-lex-circ.h:25-27 | Restoring changes the tail and nothing else |
| `Matcher.SimpleReadsStream` | labs/10-esp8266/libesp/esp-lex-simple.c:5-18 | Getc and peek of the keep-everything lexer read the concatenation of all refills in order, however it is cut |
| `RingPlace.RestoreLands` | labs/10-esp8266/libesp/esp-lex-circ.h:25-27 | However old the checkpoint, the ring behaves from the restore on as if it had been taken where the restore lands: at itself if everything since is still in the ring, else a whole number of rings later |
| `RingPlace.PeekPlace` | labs/10-esp8266/libesp/esp-lex-circ.c:14-23 | A peek of the ring gives the next byte of the whole input and reads in refills only if it must; it panics exactly when such a refill does not fit |
| `RingPlace.GetcPlace` | labs/10-esp8266/libesp/esp-lex-circ.c:5-11 | The same for getc, which moves on by one |
| `MatchOnRing.MatchTokRightIff` | labs/10-esp8266/libesp/esp-parse.c:159-178 | `match_tok` over a ring of n slots, for every input and chunking: when the answer is 0, it is 0 and leaves the position unchanged if and only if every refill read and the bytes from the call's start to the newest are at most n - 1; when it is a match, it ends in the right place if and only if the refills fit and the restore ending blank-line skipping does not land behind the first word; within the bound verdict and place are those of the whole stream, independent of chunking |
| `MatchOnRing.MatchvRightIff` | labs/10-esp8266/libesp/esp-parse.c:181-238 | The same for `matchv`, with its values: exact for 0 results, and for matches of a format that does not begin with a digit or `%u`; sufficient for matches of the others. Right means as on the whole stream, for which see MatchMeans.FormatMeans |
| `MatchOnRing.StartsTellApart` | labs/10-esp8266/libesp/esp-parse.c:190-231 | A format that does not begin with a digit or `%u` and matches from two different starts ends in two different places |
| `MatchOnRing.NoMatchLosesInput` | labs/10-esp8266/libesp/esp-parse.c:72-75 | With CQ_N = 1024 and refills of 600 line ends, 600 line ends and an X, `match_tok("OK")` returns 0 and leaves the lexer 1024 bytes further on |
| `MatchOnRing.LuckyMatch` | labs/10-esp8266/libesp/esp-parse.c:221-226 | Why the others are excepted: a restore that lands behind leading zeros reads the same number to the same end |
| `MatchOnRing.EolEndDependsOnCut` | labs/10-esp8266/libesp/esp-parse.c:57-61 | Two chunkings of the same three bytes after which `match_eol` stops in different places |
| `Matcher.StreamLexer.constructor` | labs/10-esp8266/libesp/esp-lex-circ.c:38-44 | The ring lexer starts at the beginning of everything that will arrive |
| `Matcher.StreamLexer.Peek` | labs/10-esp8266/libesp/esp-lex-circ.c:14-23 | The next character of the whole stream, waiting at its end, or the push panic; which refills are read in |
| `Matcher.StreamLexer.Getc` | labs/10-esp8266/libesp/esp-lex-circ.c:5-11 | The same, consuming it |
| `Matcher.StreamLexer.Restore` | labs/10-esp8266/libesp/esp-lex-circ.h:25-27 | The position becomes where the restore lands |
| `Matcher.StreamLexer.Buffered` | labs/10-esp8266/libesp/esp-lex-circ.h:16-16 | How many characters can be had without reading in more |
| `Matcher.StreamLexer.SkipBlankSpace` | labs/10-esp8266/libesp/esp-parse.c:43-46 | Stops at the first character that is no space or tab, with exactly the refills read in that this needs, or in the push panic exactly when one of them does not fit |
| `Matcher.StreamLexer.MatchEol` | labs/10-esp8266/libesp/esp-parse.c:48-62 | Reply and place for every chunking: behind the line ends as far as they are buffered and no further, or where restoring the start lands |
| `Matcher.StreamLexer.MatchBlankLine` | labs/10-esp8266/libesp/esp-parse.c:64-71 | The same reply and place |
| `Matcher.StreamLexer.SkipBlankLines` | labs/10-esp8266/libesp/esp-parse.c:72-75 | Although single line-end matches depend on buffering, all of them together go to the first line that is not blank, and then to where restoring its start lands |
| `Matcher.StreamLexer.SkipToStart` | labs/10-esp8266/libesp/esp-parse.c:187-188 | Where comparing starts |
| `Matcher.StreamLexer.CompareToken` | labs/10-esp8266/libesp/esp-parse.c:164-173 | The comparison has the verdict of token and whole stream from there |
| `MatchSpec.EolRun` | labs/10-esp8266/libesp/esp-parse.c:48-75 | Blank-line skipping from any two places in one run of line ends meets |
| `Matcher.StreamLexer.MatchTok` | labs/10-esp8266/libesp/esp-parse.c:159-178 | The code over the ring gives exactly the reply and place of `TokOnRing`, the function `MatchTokRightIff` is about, push panic included |
| `MatchSpec.TokenMeans` | labs/10-esp8266/libesp/esp-parse.c:153-178 | A token matches if and only if it stands at the first non-blank place and is not the start of a longer word |
| `MatchMeans.TokenRefused` | labs/10-esp8266/libesp/esp-parse.c:153-178 | It returns 0 if and only if a character differs, all before it being the same, or the token ends in a letter and another letter follows; the assertion fails if and only if the token is empty |
| `MatchMeans.StartMeans` | labs/10-esp8266/libesp/esp-parse.c:159-162 | Both matchers start at the first character that is neither blank nor a line end |
| `MatchMeans.FormatMeans` | labs/10-esp8266/libesp/esp-parse.c:181-238 | `matchv` matches up to e with values vs if and only if there is a reading of the line up to e: literals in order with any blanks before each, at each %u a non-empty run of figures denoting its value modulo 2^32, at each %s a quoted text of fewer than 32 characters. It returns 0 if and only if a reading meets a line end or a character that differs before a % behind the first place of the format was met; it panics if and only if one was met, or the format is illegal there, or a quote is not closed within 32 characters |
| `MatchMeans.FailureWrites` | labs/10-esp8266/libesp/esp-parse.c:97-108 | A failed `matchv` has written the values read before and 0 for the number it looked for in vain |
| `MatchMeans.NumberIff` | labs/10-esp8266/libesp/esp-parse.c:97-108 | `match_uint` takes blanks and a whole run of figures and yields the number they denote modulo 2^32 |
| `MatchMeans.TextIff` | labs/10-esp8266/libesp/esp-parse.c:112-127 | `match_literal_string` takes blanks, a quote, fewer than 32 characters that are no quote, and a quote |
| `MatchMeans.NoTextIff` | labs/10-esp8266/libesp/esp-parse.c:112-127 | It refuses if and only if the first character that is no blank is not a quote, and panics if and only if 32 characters behind the quote do not close it |
| `MatchSpec.TokenStable` | labs/10-esp8266/libesp/esp-parse.c:159-178 | Once answered, the answer is the same for every longer input |
| `Matcher.StreamLexer.MatchUint` | labs/10-esp8266/libesp/esp-parse.c:97-108 | Reply, number (32-bit arithmetic) and place over the ring; whatever the reply, blanks and digits have been eaten and nothing else |
| `Matcher.StreamLexer.MatchLiteralString` | labs/10-esp8266/libesp/esp-parse.c:112-126 | The text between quotes within the size given, ending behind it; other first character: 0, with the blanks eaten; no closing quote: panic |
| `Matcher.StreamLexer.FollowFormat` | labs/10-esp8266/libesp/esp-parse.c:190-231 | The loop has the verdict and values of format and whole stream from there; mismatch after the literal prefix panics |
| `Matcher.StreamLexer.Matchv` | labs/10-esp8266/libesp/esp-parse.c:181-238 | The code over the ring gives exactly the reply, values and place of `FormatOnRing`, the function `MatchvRightIff` is about; which text that matches is in MatchMeans.FormatMeans |
| `MatchSpec.FormatStable` | labs/10-esp8266/libesp/esp-parse.c:181-238 | Once `matchv` answered, verdict and values are the same for every longer input |
| `MatchRender.RenderRoundTrip` | labs/10-esp8266/libesp/esp-parse.c:181-238 | A format filled in with values (numbers not followed by a digit, strings without quotes and shorter than 32) and matched with `matchv` gives back the values and ends behind the text |
| `RandomSpec.SeededDraw` | libpi-fake/pi-random.c:217-240 | For every type but the linear one, every seed and every k, draw k after seeding is o[11*deg+k] / 2, where o starts with the seeded table read from the front pointer and o[i] = o[i-deg] + o[i-sep] mod 2^32 (the discards consume o[deg] to o[11*deg-1]); degrees and separations are given their numbers in InitstateDraws |
| `RandomSpec.InitstateDraws` | libpi-fake/pi-random.c:80-125 | With 32 to 63 bytes of state o[i] = o[i-7] + o[i-3], with 64 to 127 o[i-15] + o[i-1], with 128 to 255 o[i-31] + o[i-3], from 256 on o[i-63] + o[i-1], all modulo 2^32; o starts with the words r[0] = seed (1 for 0), r[i] = 16807 * r[i-1] mod 2147483647, read from index sep on; draw k after pi_initstate_r is o[11*deg+k] / 2 |
| `RandomSpec.LinearDraws` | libpi-fake/pi-random.c:149-155 | With 8 to 31 bytes draw k is iterate k + 1 of 1103515245 * x + 12345 mod 2^31 from the seed (1 for 0) |
| `RandomSpec.DrawIsTerm` | libpi-fake/pi-random.c:156-180 | From any table, draw k is term deg + k of the recurrence with its low bit dropped |
| `RandomSpec.WindowIsTerms` | libpi-fake/pi-random.c:156-180 | After k draws the table read from the front pointer is terms k to k + deg - 1 |
| `RandomSpec.AfterAdds` | libpi-fake/pi-random.c:140-185 | Drawing j and then k values is drawing j + k |
| `RandomSpec.SchrageIsMinimal` | libpi-fake/pi-random.c:222-230 | For every 32-bit word the step is 16807 * word mod 2147483647, in range, with all intermediates in the signed 32-bit range |
| `RandomSpec.MinimalInvertible` | libpi-fake/pi-random.c:222-230 | The step is undone by multiplying with 1407677000 |
| `RandomSpec.ZeroWordIff` | libpi-fake/pi-random.c:217-231 | A later table word is zero if and only if the seed is a nonzero multiple of 2147483647 |
| `RandomSpec.ZeroSeeds` | libpi-fake/pi-random.c:211-213 | Those 32-bit seeds are exactly 2147483647 and 4294967294 |
| `RandomSpec.HeaderIs` | libpi-fake/pi-random.c:297-299 | The header word is five times the rear pointer's index plus the type, and 0 for the linear generator |
| `RandomSpec.HeaderDecodes` | libpi-fake/pi-random.c:298-299 | Type and rear index are recovered from the header word |
| `Random.ChaseIsShift` | libpi-fake/pi-random.c:163-177 | Adding the rear entry into the front one and advancing both pointers shifts the window read from the front |
| `Random.RandomData.Chase` | libpi-fake/pi-random.c:156-180 | The two-pointer branch shifts the window, keeps front = rear + sep modulo deg without testing the rear pointer when the front wraps, and leaves the header alone |
| `Random.RandomData.Draw` | libpi-fake/pi-random.c:140-185 | A draw advances the abstract generator by one and returns its output, for all types |
| `Random.RandomData.Discard` | libpi-fake/pi-random.c:235-240 | n discards advance n draws and move the front pointer by n |
| `Random.RandomData.FillTable` | libpi-fake/pi-random.c:217-231 | The table becomes the seeded table of the minimal standard generator; the header is untouched |
| `Random.RandomData.Srandom` | libpi-fake/pi-random.c:195-247 | The generator becomes the seeded one, and after 10 * deg discards both pointers are back where they started |
| `Random.RandomData.Initstate` | libpi-fake/pi-random.c:260-305 | Succeeds if and only if n is at least 8; picks the type by n; every access stays inside the n bytes; the array can be loaded back to the same generator |
| `Random.DrawAfterInit` | libpi-fake/pi-random.c:250-299 | The code of pi_initstate_r followed by k + 1 calls of pi_random_r returns the draw those two lemmas speak of, and fails exactly below 8 bytes |
| `Random.RandomData.Save` | libpi-fake/pi-random.c:327-332 | The current array, header included, can be loaded back to the current generator |
| `Random.RandomData.Adopt` | libpi-fake/pi-random.c:338-350 | The generator becomes the one the array stands for |
| `Random.RandomData.Setstate` | libpi-fake/pi-random.c:315-356 | Saves the current array, then adopts the other one; fails exactly when the header's C remainder is negative, changing nothing but the saved header |
| `Random.SwitchAwayAndBack` | libpi-fake/pi-random.c:315-352 | Switching to another array, drawing any number of values there and switching back leaves exactly the remaining stream of never having switched, and the other array holds its own advanced state |
| `Random.SetCurrent` | libpi-fake/pi-random.c:307-352 | Setting the current array again changes nothing |
| `CrcTable.TableDivides` | libpi/libc/crc.c:8-52 | Each of the 256 entries is eight division steps by 0xEDB88320 applied to its index |
| `Crc32.UpdateIsDivision` | libpi/libc/crc.c:59-59 | One table look-up is feeding the byte's eight bits, low first, to the division register |
| `Crc32.FoldIsDivision` | libpi/libc/crc.c:57-60 | For every message and register the table-driven loop is bit-at-a-time division (section 8 of RFC 1952) |
| `Crc32.Crc32Inc` | libpi/libc/crc.c:54-61 | The loop returns the CRC defined by division, for every buffer, size and starting CRC |
| `Crc32.Crc32` | libpi/libc/crc.c:63-65 | The same from 0 |
| `Crc32.Incremental` | libpi/libc/crc.c:54-61 | Two calls on the parts of a message equal one call on the whole |
| `Crc32.FeedInjective` | libpi/libc/crc.c:54-61 | For a fixed message different starting registers stay different |
| `Crc32.WordsTellApart` | libpi/libc/crc.c:54-61 | From one register, different bit strings of up to 32 bits lead to different registers |
| `Crc32.BurstChangesCrc` | libpi/libc/crc.c:54-65 | Any change confined to 32 consecutive bits, at any bit offset, changes the CRC |
| `Crc32.FourBytesChangeCrc` | libpi/libc/crc.c:54-65 | Any change confined to four consecutive bytes changes the CRC |
| `Crc32.ResidueIsConstant` | libpi/libc/crc.c:54-65 | A message followed by its CRC, low byte first, always has CRC 0x2144DF1C, from any starting CRC |
| `TraceProofs.LogRoundTrip` | labs/5-replay/code/pretty-print.c:163-197 | Any list of entries as log lines, each followed by any blanks or `#` comment, reads back as the same list |
| `TraceProofs.WrittenReadsBackIff` | labs/5-replay/code/interpose.c:106-110 | What `wr_log_byte` writes for a list of entries reads back as that list if and only if no sender is 0, for which `strlen` makes it write nothing |
| `TraceProofs.AppendLine` | labs/5-replay/code/interpose.c:106-110 | A line added to a readable log adds its entry and leaves all others as they read |
| `Trace.LogFile.constructor` | labs/5-replay/code/interpose.c:106-110 | An empty log reads as no entries |
| `Trace.LogFile.WriteByte` | labs/5-replay/code/interpose.c:106-110 | After each write the log reads back as all entries written so far that have a sender other than 0 |
| `TraceProofs.BootRunRoundTrip` | labs/5-replay/code/pretty-print.c:421-499 | A run starting with GET_PROG_INFO, serialised behind any Pi garbage without 22 22 11 11 and printed with any blanks and comments, parses to exactly its messages if and only if it is well formed (announced sizes agree, code has the announced size, BOOT_SUCCESS last) |
| `TraceProofs.ParsedIsWellFormed` | labs/5-replay/code/pretty-print.c:445-496 | Whatever the parser accepts is well formed |
| `TraceProofs.ParsedBytesReappear` | labs/5-replay/code/pretty-print.c:445-496 | Parsing neither loses nor invents a byte: serialising the messages gives the bytes read |
| `TraceProofs.EntriesReappearIff` | labs/5-replay/code/pretty-print.c:445-496 | Serialising the parsed messages gives back the entries, senders included, if and only if every opcode was sent by the side whose message it is |
| `TraceProofs.OpcodeFromWrongSide` | labs/5-replay/code/pretty-print.c:445-456 | GET_PROG_INFO sent by Unix is parsed as the Pi's |
| `TraceProofs.RunParses` | labs/5-replay/code/pretty-print.c:445-496 | Every well-formed run parses back to itself |
| `TraceProofs.OneMessageParses` | labs/5-replay/code/pretty-print.c:445-496 | One message is recovered with exactly its own entries used |
| `TraceProofs.GarbageSkippedIff` | labs/5-replay/code/pretty-print.c:434-442 | The skip loop stops exactly behind the garbage if and only if the garbage does not itself contain the mark |
| `TraceProofs.MarkDoesNotStraddle` | labs/5-replay/code/pretty-print.c:434-442 | The mark has no border: it cannot begin inside garbage and end behind it |
| `TraceProofs.SkipStopsAtMark` | labs/5-replay/code/pretty-print.c:434-442 | The skip loop stops at the first mark |
| `TraceMeans.EntryReadIff` | labs/5-replay/code/pretty-print.c:163-197 | The reader takes an entry from a place in the log if and only if one whole line for it stands there: sender, `,0x`, two hexadecimal digits of either case with the high one first, blanks or a # comment, newline |
| `TraceMeans.WrittenLine` | labs/5-replay/code/interpose.c:106-110 | The writer's line: sender, `,0x`, two lower-case digits with the high one first, newline |
| `TraceMeans.MessageEntries` | libunix/simple-boot.h:10-24 | The bytes and the sender of every message whose only word is its opcode |
| `TraceMeans.WordMessageEntries` | libunix/simple-boot.h:10-24 | The bytes and the sender of GET_CODE with its checksum and of PUT_PROG_INFO with address, size and checksum in this order, words low byte first |
| `Trace.Log.constructor` | labs/5-replay/code/pretty-print.c:117-123 | A log is read from its first byte and line 1 |
| `Trace.Log.Getc` | labs/5-replay/code/pretty-print.c:130-134 | The next byte; the assertion fires exactly at the end |
| `Trace.Log.ExpTok` | labs/5-replay/code/pretty-print.c:145-149 | Succeeds exactly on the expected byte |
| `Trace.Log.GetHex` | labs/5-replay/code/pretty-print.c:163-171 | Succeeds exactly on `0x` and two hexadecimal digits of either case, and returns their value |
| `Trace.Log.EatLine` | labs/5-replay/code/pretty-print.c:174-186 | Succeeds exactly when only blanks or a comment precede the newline, and stops behind it |
| `Trace.Log.ReadEnt` | labs/5-replay/code/pretty-print.c:188-197 | Result and cursor are those of the line grammar: entry, end of log, or death |
| `Trace.Log.ReadEntOp` | labs/5-replay/code/pretty-print.c:222-228 | One entry of the given sender comes off the front of the entries left, or they do not start with one |
| `Trace.Log.ReadWord` | labs/5-replay/code/pretty-print.c:231-248 | Four entries of the sender come off, low byte first, or they do not start with four |
| `Trace.Log.PeekWord` | labs/5-replay/code/pretty-print.c:250-255 | The next word, with cursor and line number unmoved |
| `Trace.Log.ReadN` | labs/5-replay/code/pretty-print.c:266-276 | Exactly n entries of the sender come off, or they do not start with n |
| `Trace.Log.CountRest` | labs/5-replay/code/pretty-print.c:281-289 | The first pass counts all entries left if all are the sender's, else dies |
| `Trace.Log.ReadAll` | labs/5-replay/code/pretty-print.c:278-295 | Two passes give all entries left, which are all the sender's, else it dies |
| `Trace.Log.FetchOpcode` | labs/5-replay/code/pretty-print.c:258-263 | A word from whoever sent the next entry; end exactly when no entry is left |
| `Trace.Log.ParseMessage` | labs/5-replay/code/pretty-print.c:446-495 | One turn of the switch: exactly one message's entries come off and the program size is kept up, or it dies as the grammar says |
| `Trace.Log.ParsePutProgInfo` | labs/5-replay/code/pretty-print.c:472-485 | Three words; dies when a size announced before disagrees |
| `Trace.Log.ParsePutCode` | labs/5-replay/code/pretty-print.c:486-491 | The announced number of Unix bytes; dies when none was announced |
| `Trace.Log.ParseGetCode` | labs/5-replay/code/pretty-print.c:457-460 | One Pi word |
| `Trace.Log.ParseBootSuccess` | labs/5-replay/code/pretty-print.c:462-471 | All that is left, from the Pi |
| `Trace.Log.SkipGarbage` | labs/5-replay/code/pretty-print.c:434-442 | The loop leaves exactly the entries the skip function leaves, or dies with it; entries left are its measure |
| `Trace.Log.ParseTrace` | labs/5-replay/code/pretty-print.c:421-499 | The program's result, death included, is the parse function of the entries of the log |
| `FselProofs.EveryRunIsSafe` | labs/12-fuse/0-examples/examples/fsel.c:128-246 | Over every interleaving of polls, reads, producer turns and the unlocked learning of the notification target, inside turns too: bit set iff slot holds a handle; nothing happens to a handle after it is destroyed, so it is destroyed at most once; every handle no longer held was destroyed and every held one was not; produced = consumed + stored with stored at most 10 |
| `FselProofs.EveryCycleIsFair` | labs/12-fuse/0-examples/examples/fsel.c:200-246 | Any run with 48 producer turns, from any phase, visits every file exactly 7 times |
| `FselProofs.NobodyWaitsForever` | labs/12-fuse/0-examples/examples/fsel.c:200-246 | A handle waiting on a file with room is destroyed within 48 turns whatever else happens, and was notified unless a later poll of that file replaced it; that a byte came with the notification is FselAlone.NotifiedIff |
| `FselAlone.FileRunsAlone` | labs/12-fuse/0-examples/examples/fsel.c:128-248 | Every run of the sixteen files, seen from one of them, is the run of that file alone, described with numbers: met in one turn of sixteen, then two of sixteen, then four; a visit that finds fewer than ten bytes stores one and notifies and destroys the handle held, if the target is known by then; a poll with a handle replaces and destroys the old one; a read takes at most what is stored. Bytes, holder, poll bit and the whole history of the file's handles agree |
| `FselAlone.NotifiedIff` | labs/12-fuse/0-examples/examples/fsel.c:216-233 | In a producer turn a waiting handle is notified if and only if the turn comes to its file, finds fewer than ten bytes and knows the target by then; at that moment `produced` and `cnt` have grown by one and the handle is destroyed; otherwise it goes on waiting |
| `FselAlone.NotifiedWasWaiting` | labs/12-fuse/0-examples/examples/fsel.c:222-232 | No other step notifies, and only a handle that was waiting is notified |
| `FselAlone.ProducedIsLowVisits` | labs/12-fuse/0-examples/examples/fsel.c:216-221 | Over any run a file gains exactly as many bytes as there were visits that found fewer than ten in it |
| `FselProofs.FullFileIsNotNotified` | labs/12-fuse/0-examples/examples/fsel.c:218-220 | Room is needed: on a full file that nobody reads or polls again, the handle stays for as long as the run lasts |
| `FselProofs.FullFileHappens` | labs/12-fuse/0-examples/examples/fsel.c:218-220 | From the start of the program, a run that leaves a handle waiting on a full file with notifications known |
| `FselProofs.RunKeeps` | labs/12-fuse/0-examples/examples/fsel.c:128-246 | The monitor invariant holds after every interleaving |
| `FselProofs.StepKeeps` | labs/12-fuse/0-examples/examples/fsel.c:128-246 | Each critical section keeps it |
| `FselProofs.RunVisits` | labs/12-fuse/0-examples/examples/fsel.c:216-238 | Visits over any run are those of the producer's rotation alone |
| `FselProofs.CycleVisits` | labs/12-fuse/0-examples/examples/fsel.c:216-238 | One rotation of strides 16, 8 and 4 meets every file 1 + 2 + 4 times from any phase |
| `FselSpec.ReleaseKeeps` | labs/12-fuse/0-examples/examples/fsel.c:170-174 | Destroying the held handle keeps the handle ledger right |
| `FselSpec.RegisterKeeps` | labs/12-fuse/0-examples/examples/fsel.c:176-177 | Storing a fresh handle in a free slot keeps it right |
| `Fsel.Monitor.constructor` | labs/12-fuse/0-examples/examples/fsel.c:37-40 | The initial globals are the initial state |
| `Fsel.Monitor.LearnFuse` | labs/12-fuse/0-examples/examples/fsel.c:161-165 | The notification target is learnt once, if FUSE tells |
| `Fsel.Monitor.Poll` | labs/12-fuse/0-examples/examples/fsel.c:167-188 | The locked part is one step of the machine; POLLIN exactly when more was produced than consumed |
| `Fsel.Monitor.Read` | labs/12-fuse/0-examples/examples/fsel.c:136-144 | At most what is stored is handed over, and a short read empties the file |
| `Fsel.Monitor.ProduceOne` | labs/12-fuse/0-examples/examples/fsel.c:216-233 | One round of the inner loop; the handle it notifies is never NULL, and by FselAlone.NotifiedIff has a byte to read |
| `Fsel.Monitor.Tick` | labs/12-fuse/0-examples/examples/fsel.c:210-240 | One producer turn is one step of the machine, rotation included, even if the notification target is learnt between two of its rounds |
| `ThreadSpec.EveryRunConserves` | labs/6-threads/2-threads.new/rpi-thread.c:28-44 | Over every sequence of alloc, free, enqueue and dequeue: run queue, free queue and handed-out blocks add up to all blocks; queues are disjoint, without repeats and apart from what is handed out; the next block handed out is held by nobody and not queued to run |
| `ThreadSpec.StepKeeps` | labs/6-threads/2-threads.new/rpi-thread.c:28-44 | Every operation keeps the conservation equation |
| `ThreadSpec.RunKeeps` | labs/6-threads/2-threads.new/rpi-thread.c:28-44 | So does every sequence |
| `ThreadSpec.BlocksAddUp` | labs/6-threads/2-threads.new/rpi-thread.c:121-127 | Queued plus handed-out blocks equal blocks allocated |
| `ThreadSpec.AllocIsNew` | labs/6-threads/2-threads.new/rpi-thread.c:28-39 | No live block is handed out again |
| `ThreadSpec.FirstQueuedRunsFirst` | labs/6-threads/2-threads.new/rpi-thread.c:51-65 | Over every sequence of operations the blocks taken off the run queue, followed by those still on it, are those that were on it followed by those put on it since, in order |
| `ThreadSpec.FreedComesBack` | labs/6-threads/2-threads.new/rpi-thread.c:28-44 | A freed block is the next one handed out and nothing new is made for it |
| `ThreadSpec.TidsDistinct` | labs/6-threads/2-threads.new/rpi-thread.c:16-38 | Two blocks share an id if and only if they were handed out a multiple of 2^32 allocations apart; so never within the first 2^32 |
| `ThreadQueue.Queue.constructor` | labs/6-threads/2-threads.new/Q.h:8-11 | A zeroed queue is an empty sequence |
| `ThreadQueue.Queue.Empty` | labs/6-threads/2-threads.new/Q.h:18-24 | True exactly for the empty sequence, and neither inner check can fire |
| `ThreadQueue.Queue.Pop` | labs/6-threads/2-threads.new/Q.h:27-40 | Removes and returns the first, or returns null and changes nothing; no block is written |
| `ThreadQueue.Queue.Append` | labs/6-threads/2-threads.new/Q.h:43-52 | Appends to the sequence; head, tail, count and chain stay right |
| `ThreadQueue.Queue.Push` | labs/6-threads/2-threads.new/Q.h:55-61 | Prepends to the sequence |
| `ThreadQueue.Queue.InsertAfter` | labs/6-threads/2-threads.new/Q.h:64-74 | Inserts behind the given member, or at the front for null |
| `ThreadQueue.Queue.Splice` | labs/6-threads/2-threads.new/Q.h:69-73 | The middle case, changing only two `next` fields |
| `ThreadQueue.StillValid` | labs/6-threads/2-threads.new/Q.h:8-16 | A queue survives any change that leaves it and its own blocks' links alone |
| `Threads.ThreadSystem.constructor` | labs/6-threads/2-threads.new/rpi-thread.c:10-19 | Empty queues, ids from 1 |
| `Threads.ThreadSystem.Obtain` | labs/6-threads/2-threads.new/rpi-thread.c:29-35 | A cached block, or a new one counted in `nalloced` |
| `Threads.ThreadSystem.Hand` | labs/6-threads/2-threads.new/rpi-thread.c:37-38 | The block gets the next id |
| `Threads.ThreadSystem.Alloc` | labs/6-threads/2-threads.new/rpi-thread.c:28-39 | On the heap with shared `next`: the block comes from the free queue or is new, is on no queue and held by nobody, and carries the next id; both queues stay intact |
| `Threads.ThreadSystem.Free` | labs/6-threads/2-threads.new/rpi-thread.c:41-44 | The block goes to the front of the free queue; the run queue is untouched |
| `Threads.ThreadSystem.Enqueue` | labs/6-threads/2-threads.new/rpi-thread.c:63-63 | The block goes to the end of the run queue; the free queue is untouched |
| `Threads.ThreadSystem.Fork` | labs/6-threads/2-threads.new/rpi-thread.c:51-65 | Allocation and enqueueing together |
| `Threads.ThreadSystem.InternalCheck` | labs/6-threads/2-threads.new/rpi-thread.c:121-131 | The count test passes if and only if the number of handed-out blocks is 0 modulo 2^32 |
| `Printk.VaPrintk` | libpi/libc/va-printk.c:125-197 | Stores exactly the first n - 1 characters of the unbounded text and a NUL, returns stored length + 1, writes nothing from position n on, and panics exactly when a bad conversion is reached with room left; what the text is, character by character, is in the PrintkMeans lemmas |
| `PrintkMeans.LiteralText` | libpi/libc/va-printk.c:130-131 | Text without % is printed as it stands, before the text of what follows it |
| `PrintkMeans.PlainText` | libpi/libc/va-printk.c:130-131 | A format without % prints itself |
| `PrintkMeans.PercentText` | libpi/libc/va-printk.c:133-135 | %% prints one % |
| `PrintkMeans.ConversionText` | libpi/libc/va-printk.c:136-193 | % with digits and d, u, p, x, b, c or s prints, before the text of the rest with the remaining arguments, the next argument: as a signed decimal number, an unsigned one, in base 16, 16, 2 (no leading zeros, blanks in front only up to the width), as one right-aligned character, as the C string |
| `PrintkMeans.BadConversionText` | libpi/libc/va-printk.c:141-188 | With any other specifier, with none, or with a width of 32 or more modulo 2^32, nothing is printed and `va_printk` panics there |
| `Printk.TextHasNoNul` | libpi/libc/va-printk.c:190-192 | The stored text holds no NUL, so it is the whole C string in the buffer |
| `Printk.Emit` | libpi/libc/va-printk.c:71-121 | The field is the first n - 1 characters of the right-aligned text, NUL-terminated; nothing beyond is written and the 64-byte scratch buffer is never overrun |
| `Printk.Digits` | libpi/libc/va-printk.c:88-99 | The digit loop leaves the numeral back to front, in at most 32 characters |
| `Printk.Backwards` | libpi/libc/va-printk.c:76-118 | Digits, sign and single characters back to front |
| `Printk.Pad` | libpi/libc/va-printk.c:46-53 | Appends blanks up to the width and terminates |
| `Printk.Reverse` | libpi/libc/va-printk.c:55-69 | The text read backwards, cut at its end to what fits, terminated; the rest of the destination unchanged |
| `Printk.CopyString` | libpi/libc/va-printk.c:190-192 | Copies the C string up to its NUL or the limit and nothing more |
| `Printk.Render` | libpi/libc/va-printk.c:148-187 | The string of one conversion |
| `Printk.ReadWidth` | libpi/libc/va-printk.c:140-145 | The width digits in 32-bit arithmetic |
| `Printk.ReadConversion` | libpi/libc/va-printk.c:137-187 | Accepts exactly what the acceptance function accepts, and returns specifier, width and where the format goes on |
| `PrintkSpec.AcceptedIff` | libpi/libc/va-printk.c:140-146 | A conversion is accepted if and only if its specifier is known and the number its width digits denote is below 32 modulo 2^32; that remainder is the width |
| `PrintkSpec.WideIsOne` | libpi/libc/va-printk.c:142-146 | `%4294967297d` is accepted as `%1d` |
| `PrintkSpec.EmitDenotes` | libpi/libc/va-printk.c:71-121 | For bases 10, 16 and 2, every word, width and sign: the field has max(width, digits + sign) columns and shows exactly the value, the most negative int included |
| `PrintkSpec.NumberIsShown` | libpi/libc/va-printk.c:165-177 | What `%d`, `%u`, `%p`, `%x`, `%b` contribute is such a field: signed for `%d`, unsigned otherwise |
| `PrintkSpec.NumeralDenotes` | libpi/libc/va-printk.c:88-113 | A numeral denotes its number and has no leading zero |
| `PrintkSpec.NumeralUnique` | libpi/libc/va-printk.c:88-113 | It is the only digit string without leading zero that does |
| `PrintkSpec.WordNumeralLength` | libpi/libc/va-printk.c:76-76 | No 32-bit numeral needs more than 32 characters |
| `PrintkSpec.MatchUintInverts` | labs/10-esp8266/libesp/esp-parse.c:97-108 | An unsigned decimal field of any width, followed by anything but a digit, is read back by `match_uint` as the same number, ending behind it |

## Left out

- Lab stubs (`unimplemented()` bodies: `rpi_yield`, `rpi_exit`, the stack set-up in `rpi_fork`, GPIO opcodes of `pi-vmm.c`, kmalloc, the bootloader, MMU and FAT32 labs): there is no code to rest a property on.
- Remote memory: the channels are unbounded FIFOs that lose nothing once the Pi has read its first byte (no UART overrun), and panic text comes after the bytes written before it (the interrupt-driven UART driver is not part of this model); a `read` waits for its first byte (the line's read timeout, after which `get_uint8` and `get_uint32` panic too, is not modelled) and a `write` takes all its bytes; what a rebooted Pi sends is not modelled; `clean_reboot` on the Unix side with its delays is not modelled; what GET32 and PUT32 do to hardware is an arbitrary `Device`; the Pi may print framed characters at any time in its main loop, which covers its `printk` calls up to a panic; `assert(x32 == x64)` on addresses is in the type of addresses.
- Interleaved ring: memory is sequentially consistent and each field access is atomic; of two fields read in one expression `head` is read first; the `fence` and `overflow` fields and the blocking use of `cq_pop` are not modelled; `cq_peek_n` is modelled for a quiescent producer only, since it moves `tail` for a while.
- Lexers: the LEX_MAXBUF limit of the keep-everything lexer, the `n` counter of the ring lexer (never read), timeouts and the dump routines.
- Matchers: characters are unsigned bytes; `match_linev`, `get_nonblank_line` and the `expect_` wrappers only call or panic around what is modelled.
- MatchOnRing.MatchvRightIff: for a format that begins with a digit or `%u` the condition for a match is sufficient only, because `LuckyMatch` shows a match that is right without it.
- Random: NULL arguments; saving the old array in `pi_initstate_r`, which its comment mentions and its code does not do.
- Random.RandomData.Setstate: takes an array whose header points inside it, because the code trusts the header and would read outside the array.
- Random.RandomData.Adopt: the same.
- Trace: `log_parse_tuples` (all entries of a log), `check_parse` (writing them out again and comparing) and the pretty printer are not modelled; a log that ends inside a word makes the code compare uninitialised variables, which the model counts as dying; allocation sizes are not modelled; a BAD_DATA record is not kept because the code overwrites it.
- Fsel: directory, attribute and open/release operations; FUSE itself, which is assumed to hand out each poll handle once; `polled_zero` and the trace output.
- Threads: alignment of blocks and failure of `kmalloc_aligned`; saved registers and stacks.
- Printk: `%f` and the float printer (the model panics on `%f`, as the code does without RPI_FP_ENABLED); the argument list must fit the format, as C demands; negating the most negative int is taken to wrap; a format is the bytes of a C string without its NUL.
- AT-command sequences (sleeps and panics around a device that is not shown), FUSE pass-through examples (one system call each), `log-util.c` (a stricter copy of the log reader), the older lab 9 (superseded by lab 10) and vendored code.
