/** The transmitter of `loader/patch-uart.S`: one character bit-banged on the /JOY pin, and an 8N1 receiver. */
module Uart {
  import opened Bits

  // ---------- Frames ----------

  const NEWLINE: Byte := 0x0A
  const CARRIAGE_RETURN: Byte := 0x0D

  /** A start bit, eight data bits from the least significant on, and a stop bit. */
  function FrameBits(b: Byte): (bits: seq<bool>)
    ensures |bits| == 10
  {
    [false] + BitsOf(b, 8) + [true]
  }

  /** The characters that go out for one that is put: a newline is preceded by a carriage return. */
  function Characters(b: Byte): seq<Byte> {
    if b == NEWLINE then [CARRIAGE_RETURN, NEWLINE] else [b]
  }

  /** A frame in figures: low, the bits of the byte from bit 0 to bit 7, high. */
  lemma {:induction false} FrameInFigures(b: Byte, j: nat)
    requires j < 8
    ensures |FrameBits(b)| == 10 && !FrameBits(b)[0] && FrameBits(b)[9]
    ensures FrameBits(b)[1 + j] == Bit(b, j)
  {
    hide BitsOf, Bit;
    BitsOfIndex(b, 8, j);
  }

  /** Only code 10 goes out as two characters, code 13 first. */
  lemma CharactersInFigures(b: Byte)
    ensures Characters(b) == if b == 10 then [13, 10] else [b]
  {}

  /** The line, bit period by bit period, while these characters go out. */
  function LineBits(chars: seq<Byte>): seq<bool> {
    if chars == [] then [] else FrameBits(chars[0]) + LineBits(chars[1..])
  }

  /** `(b << 1) | 0x200` */
  function FrameWord(b: Byte): nat {
    b as int * 2 + 0x200
  }

  lemma {:induction false} BitsOfSplit(lo: nat, m: nat, hi: nat, n: nat)
    requires lo < Pow2(m)
    ensures BitsOf(lo + hi * Pow2(m), m + n) == BitsOf(lo, m) + BitsOf(hi, n)
    decreases m
  {
    if m == 0 {
    } else {
      HalveShifted(hi, m);
      assert (lo + hi * Pow2(m)) / 2 == lo / 2 + hi * Pow2(m - 1);
      BitsOfSplit(lo / 2, m - 1, hi, n);
    }
  }

  /** The ten low bits of the frame word are the frame. */
  lemma {:induction false} FrameWordBits(b: Byte)
    ensures FrameWord(b) < 0x400 && BitsOf(FrameWord(b), 10) == FrameBits(b)
  {
    var rest: nat := b as int + 0x100;
    Pow2Values();
    BitsOfSplit(b, 8, 1, 1);
    assert BitsOf(1, 1) == [true];
    assert FrameWord(b) / 2 == rest && FrameWord(b) % 2 == 0;
    assert BitsOf(FrameWord(b), 10) == [false] + BitsOf(rest, 9);
  }

  /** Two frames in one register go out in order, the lower one first. */
  lemma {:induction false} TwoFrames(first: Byte, second: Byte)
    ensures BitsOf(FrameWord(second) * 0x400 + FrameWord(first), 20) == FrameBits(first) + FrameBits(second)
  {
    FrameWordBits(first);
    FrameWordBits(second);
    assert Pow2(5) == 32 && Pow2(10) == 32 * Pow2(5);
    BitsOfSplit(FrameWord(first), 10, FrameWord(second), 10);
  }

  // ---------- The transmitter ----------

  /** The timer's interrupt flag, bit 10 of its mode register, as each successive read finds it. */
  type Flags = nat -> bool

  ghost predicate TogglesAfter(flags: Flags, n: nat) {
    exists m: nat :: n <= m && flags(m) != flags(n)
  }

  /** The timer runs: whatever a read finds, a later one finds the opposite. */
  ghost predicate Ticking(flags: Flags) {
    forall n: nat :: TogglesAfter(flags, n)
  }

  /** One bit on the line: the halfword stored to JOY_CTRL, and the first and last flag reads while it stood. */
  datatype BitOut = BitOut(port: nat, first: nat, last: nat)

  /** The level of the /JOY pin, the inverse of bit 13 of the port. */
  function Level(port: nat): bool {
    port / 0x2000 % 2 == 0
  }

  function Levels(trace: seq<BitOut>): (levels: seq<bool>)
    ensures |levels| == |trace|
  {
    if trace == [] then [] else Levels(trace[..|trace| - 1]) + [Level(trace[|trace| - 1].port)]
  }

  /** While the bit stands every read finds the flag unchanged, until the last one finds it toggled. */
  ghost predicate HeldForOneToggle(out: BitOut, flags: Flags, flag: bool) {
    out.first <= out.last && (forall n :: out.first <= n < out.last ==> flags(n) == flag) && flags(out.last) != flag
  }

  /** The read after the last one of the trace, and what that last one found; the timer starts with the flag set. */
  function NextRead(trace: seq<BitOut>): nat {
    if trace == [] then 0 else trace[|trace| - 1].last + 1
  }

  function LastFlag(trace: seq<BitOut>, flags: Flags): bool {
    if trace == [] then true else flags(trace[|trace| - 1].last)
  }

  ghost predicate Follows(out: BitOut, sent: seq<BitOut>, flags: Flags) {
    out.first == NextRead(sent) && HeldForOneToggle(out, flags, LastFlag(sent, flags))
  }

  /** Bit after bit, each held for exactly one toggle of the flag, the first against the flag the timer starts with. */
  ghost predicate Timed(trace: seq<BitOut>, flags: Flags) {
    forall i :: 0 <= i < |trace| ==> Follows(trace[i], trace[..i], flags)
  }

  /** `andi`, `sll 13`, `xori 0x2002` on the low bit of the register. */
  function PortOf(a0: nat): nat {
    Xor(a0 % 2 * 0x2000, 0x2002)
  }

  /** A one leaves bit 13 clear, a zero sets it; bit 1 is always set, and no other. */
  lemma {:induction false} PortValues(a0: nat)
    ensures PortOf(a0) == if a0 % 2 == 1 then 0x0002 else 0x2002
    ensures Level(PortOf(a0)) == (a0 % 2 == 1)
  {
    hide Xor;
    if a0 % 2 == 1 {
      assert Pow2(13) == 0x2000 by {
        assert Pow2(7) == 128 && Pow2(13) == 64 * Pow2(7);
      }
      XorDisjoint(2, 1, 13);
      XorCommutes(0x2000, 0x2002);
      XorCancels(2, 0x2000);
    } else {
      XorZero(0x2002);
    }
  }

  /** What the register holds when the loop starts is the line for the characters to send. */
  lemma {:induction false} LoadedBits(b: Byte)
    ensures b != NEWLINE ==> FrameWord(b) != FrameWord(NEWLINE) && BitsOf(FrameWord(b), 10) == LineBits(Characters(b))
    ensures BitsOf(FrameWord(NEWLINE) * 0x400 + FrameWord(CARRIAGE_RETURN), 20) == LineBits(Characters(NEWLINE))
  {
    FrameWordBits(b);
    TwoFrames(CARRIAGE_RETURN, NEWLINE);
    var two := [CARRIAGE_RETURN, NEWLINE];
    assert two[1..] == [NEWLINE] && [NEWLINE][1..] == [] && [b][1..] == [];
    assert LineBits([NEWLINE]) == FrameBits(NEWLINE) + [] == FrameBits(NEWLINE);
    assert LineBits([b]) == FrameBits(b) + [] == FrameBits(b);
    assert LineBits(two) == FrameBits(CARRIAGE_RETURN) + LineBits([NEWLINE]);
  }

  /** The frames are put together in one register: one frame, or two for a newline. */
  method LoadFrames(b: Byte) returns (a0: nat, t1: nat)
    ensures t1 == 10 * |Characters(b)| && BitsOf(a0, t1) == LineBits(Characters(b))
  {
    a0 := FrameWord(b);
    t1 := 10;
    var t0 := 0x0A * 2 + 0x200;
    LoadedBits(b);
    hide LineBits, BitsOf;
    if a0 == t0 {
      a0 := a0 * 0x400 + (0x0D * 2 + 0x200);
      t1 := t1 + 10;
    }
  }

  lemma BitFollows(out: BitOut, sent: seq<BitOut>, flags: Flags, flag: bool)
    requires out.first == NextRead(sent) && flag == LastFlag(sent, flags)
    requires out.first <= out.last && flags(out.last) != flag && forall n :: out.first <= n < out.last ==> flags(n) == flag
    ensures Follows(out, sent, flags)
  {}

  lemma NothingSent(flags: Flags)
    ensures Levels([]) == [] && Timed([], flags) && NextRead([]) == 0 && LastFlag([], flags)
  {}

  lemma BitsUnfold(x: nat, n: nat)
    ensures BitsOf(x, n) == if n == 0 then [] else [x % 2 == 1] + BitsOf(x / 2, n - 1)
  {}

  /** What the reads found before bit `i`: the flag the timer starts with, and from then on the last one read. */
  function FlagBefore(trace: seq<BitOut>, flags: Flags, i: nat): bool
    requires i < |trace|
  {
    if i == 0 then true else flags(trace[i - 1].last)
  }

  /**
   * Timing read by read: the reads go on without a gap from bit to bit, while a bit stands all but the last of them
   * find the flag as it was before, and the last finds it changed.
   */
  lemma {:induction false} TimedInReads(trace: seq<BitOut>, flags: Flags)
    ensures Timed(trace, flags) <==>
      forall i {:trigger trace[i]} :: 0 <= i < |trace| ==>
        && trace[i].first == (if i == 0 then 0 else trace[i - 1].last + 1) <= trace[i].last
        && flags(trace[i].last) != FlagBefore(trace, flags, i)
        && forall n :: trace[i].first <= n <= trace[i].last - 1 ==> flags(n) == FlagBefore(trace, flags, i)
  {
    forall i | 0 <= i < |trace|
      ensures NextRead(trace[..i]) == if i == 0 then 0 else trace[i - 1].last + 1
      ensures LastFlag(trace[..i], flags) == FlagBefore(trace, flags, i)
    {
    }
    hide NextRead, LastFlag, FlagBefore;
    if Timed(trace, flags) {
      forall i | 0 <= i < |trace| ensures Follows(trace[i], trace[..i], flags) {}
    }
  }

  /** One more bit, held for its toggle, keeps the trace timed. */
  lemma {:induction false} TimedFurther(trace: seq<BitOut>, flags: Flags, out: BitOut)
    requires Timed(trace, flags) && Follows(out, trace, flags)
    ensures Timed(trace + [out], flags)
  {
    hide Follows;
    var longer := trace + [out];
    forall i | 0 <= i < |longer| ensures Follows(longer[i], longer[..i], flags) {
      assert longer[..i] == trace[..i];
      assert i == |trace| ==> longer[..i] == trace;
    }
  }

  /** What the transmitter remembers after one more bit. */
  lemma {:induction false} SentFurther(trace: seq<BitOut>, flags: Flags, out: BitOut)
    ensures Levels(trace + [out]) == Levels(trace) + [Level(out.port)]
    ensures NextRead(trace + [out]) == out.last + 1 && LastFlag(trace + [out], flags) == flags(out.last)
  {
    assert (trace + [out])[..|trace|] == trace;
    hide Level;
  }

  /** The polling loop: the first read from `from` on that finds the flag different. */
  method WaitToggle(flags: Flags, from: nat, t2: bool) returns (polls: nat)
    requires Ticking(flags)
    ensures from <= polls && flags(polls) != t2 && forall n :: from <= n < polls ==> flags(n) == t2
  {
    ghost var toggle: nat := from;
    if flags(from) == t2 {
      assert TogglesAfter(flags, from);
      toggle :| from <= toggle && flags(toggle) != flags(from);
    }
    polls := from;
    while flags(polls) == t2
      invariant from <= polls <= toggle && forall n :: from <= n < polls ==> flags(n) == t2
      decreases toggle - polls
    {
      polls := polls + 1;
    }
  }

  /** `patch_uartputc_start`, with the flag reads of the timer it has just started. */
  method Putc(a: nat, flags: Flags) returns (trace: seq<BitOut>)
    requires Ticking(flags)
    ensures Levels(trace) == LineBits(Characters(a % 0x100))
    ensures Timed(trace, flags)
    ensures forall i :: 0 <= i < |trace| ==> trace[i].port == 0x0002 || trace[i].port == 0x2002
  {
    hide PortOf, Level, BitsOf, LineBits, HeldForOneToggle, Levels, Timed, Follows, NextRead, LastFlag, Characters;
    var a0, t1 := LoadFrames(a % 0x100);
    ghost var bits := BitsOf(a0, t1);
    var t2 := true;
    var polls: nat := 0;
    trace := [];
    NothingSent(flags);
    // do { ... } while (t1 != 0)
    while t1 != 0
      invariant t1 >= 0 && bits == Levels(trace) + BitsOf(a0, t1)
      invariant forall i :: 0 <= i < |trace| ==> trace[i].port == 0x0002 || trace[i].port == 0x2002
      invariant Timed(trace, flags) && polls == NextRead(trace) && t2 == LastFlag(trace, flags)
    {
      var port := PortOf(a0);
      PortValues(a0);
      BitsUnfold(a0, t1);
      var first := polls;
      a0 := a0 / 2;
      t1 := t1 - 1;
      polls := WaitToggle(flags, polls, t2);
      var out := BitOut(port, first, polls);
      BitFollows(out, trace, flags, t2);
      TimedFurther(trace, flags, out);
      SentFurther(trace, flags, out);
      assert bits == Levels(trace) + ([Level(port)] + BitsOf(a0, t1)) == (Levels(trace) + [Level(port)]) + BitsOf(a0, t1);
      trace := trace + [out];
      t2 := flags(polls);
      polls := polls + 1;
    }
    BitsUnfold(a0, 0);
  }

  // ---------- The receiver ----------

  datatype Received = FramingError | Bytes(bytes: seq<Byte>)

  function DataByte(bits: seq<bool>): Byte
    requires |bits| == 8
  {
    Pow2Values();
    Pack(bits)
  }

  /** An 8N1 receiver: the line idles high, a low bit starts a frame, and a frame must end with a high one. */
  function Receive(line: seq<bool>): Received
    decreases |line|
  {
    if line == [] then Bytes([])
    else if line[0] then Receive(line[1..])
    else if |line| < 10 || !line[9] then FramingError
    else
      match Receive(line[10..])
      case FramingError => FramingError
      case Bytes(rest) => Bytes([DataByte(line[1..9])] + rest)
  }

  function Idle(n: nat): seq<bool> {
    seq(n, _ => true)
  }

  /** A text sent character by character with idle periods, possibly none, before, between and after. */
  function Transmission(text: seq<Byte>, gaps: seq<nat>): seq<bool>
    requires |gaps| == |text| + 1
  {
    Idle(gaps[0]) + if text == [] then [] else LineBits(Characters(text[0])) + Transmission(text[1..], gaps[1..])
  }

  /** The text with every newline turned into a carriage return and a newline. */
  function WithCarriageReturns(text: seq<Byte>): seq<Byte> {
    if text == [] then [] else Characters(text[0]) + WithCarriageReturns(text[1..])
  }

  lemma {:induction false} ReceiveIdle(n: nat, line: seq<bool>)
    ensures Receive(Idle(n) + line) == Receive(line)
  {
    if n == 0 {
      assert Idle(0) + line == line;
    } else {
      assert (Idle(n) + line)[1..] == Idle(n - 1) + line;
      ReceiveIdle(n - 1, line);
    }
  }

  lemma {:induction false} ReceiveFrame(b: Byte, line: seq<bool>, rest: seq<Byte>)
    requires Receive(line) == Bytes(rest)
    ensures Receive(FrameBits(b) + line) == Bytes([b] + rest)
  {
    var all := FrameBits(b) + line;
    assert all[10..] == line && all[1..9] == BitsOf(b, 8) && all[9];
    Pow2Values();
    PackBitsOf(b, 8);
  }

  lemma Regroup<T>(a: seq<T>, b: seq<T>, c: seq<T>)
    ensures (a + b) + c == a + (b + c)
  {}

  lemma {:induction false} ReceiveOneMore(b: Byte, others: seq<bool>, line: seq<bool>, rest: seq<Byte>)
    requires Receive(others + line) == Bytes(rest)
    ensures Receive(FrameBits(b) + others + line) == Bytes([b] + rest)
  {
    hide *;
    Regroup(FrameBits(b), others, line);
    ReceiveFrame(b, others + line, rest);
  }

  lemma {:induction false} ReceiveCharacters(chars: seq<Byte>, line: seq<bool>, rest: seq<Byte>)
    requires Receive(line) == Bytes(rest)
    ensures Receive(LineBits(chars) + line) == Bytes(chars + rest)
    decreases |chars|
  {
    hide Receive, FrameBits;
    if chars == [] {
      assert LineBits(chars) + line == line && chars + rest == rest;
    } else {
      ReceiveCharacters(chars[1..], line, rest);
      ReceiveOneMore(chars[0], LineBits(chars[1..]), line, chars[1..] + rest);
      Regroup([chars[0]], chars[1..], rest);
      assert [chars[0]] + chars[1..] == chars;
    }
  }

  /** Every text, with whatever pauses, is received as itself with a carriage return before each newline. */
  lemma {:induction false} ReceiveTransmission(text: seq<Byte>, gaps: seq<nat>)
    requires |gaps| == |text| + 1
    ensures Receive(Transmission(text, gaps)) == Bytes(WithCarriageReturns(text))
    decreases |text|
  {
    if text == [] {
      assert Receive([]) == Bytes([]);
      ReceiveIdle(gaps[0], []);
    } else {
      var tail := Transmission(text[1..], gaps[1..]);
      ReceiveTransmission(text[1..], gaps[1..]);
      ReceiveCharacters(Characters(text[0]), tail, WithCarriageReturns(text[1..]));
      ReceiveIdle(gaps[0], LineBits(Characters(text[0])) + tail);
    }
  }

  /** One more character, and a pause after it. */
  lemma {:induction false} TransmissionFurther(text: seq<Byte>, gaps: seq<nat>, b: Byte, gap: nat)
    requires |gaps| == |text| + 1
    ensures Transmission(text + [b], gaps + [gap]) == Transmission(text, gaps) + (LineBits(Characters(b)) + Idle(gap))
    decreases |text|
  {
    hide LineBits, Characters;
    var more, moreGaps := text + [b], gaps + [gap];
    var frames := LineBits(Characters(b)) + Idle(gap);
    if text == [] {
      assert more[1..] == [] && moreGaps[1..] == [gap];
      assert Transmission([], [gap]) == Idle(gap) + [] == Idle(gap);
      assert Transmission(text, gaps) == Idle(gaps[0]) + [] == Idle(gaps[0]);
    } else {
      assert more[1..] == text[1..] + [b] && moreGaps[1..] == gaps[1..] + [gap];
      TransmissionFurther(text[1..], gaps[1..], b, gap);
      var first, tail := LineBits(Characters(text[0])), Transmission(text[1..], gaps[1..]);
      Regroup(first, tail, frames);
      Regroup(Idle(gaps[0]), first + tail, frames);
    }
  }

  lemma NothingTransmitted(gap: nat)
    ensures Transmission([], [gap]) == Idle(gap)
  {
    assert Idle(gap) + [] == Idle(gap);
  }

  /**
   * A text put character by character, with the line idle for `gaps[i]` bit periods before character `i` and at the
   * end; `timers[i]` is what the reads of the timer find during character `i`. The result is the line as a receiver
   * sees it, which takes from it the text with a carriage return before every newline.
   */
  method PutText(text: seq<Byte>, gaps: seq<nat>, timers: seq<Flags>) returns (line: seq<bool>)
    requires |gaps| == |text| + 1 && |timers| == |text|
    requires forall i :: 0 <= i < |timers| ==> Ticking(timers[i])
    ensures line == Transmission(text, gaps) && Receive(line) == Bytes(WithCarriageReturns(text))
  {
    hide Ticking, Transmission, LineBits, Characters, Receive, Timed;
    line := Idle(gaps[0]);
    NothingTransmitted(gaps[0]);
    assert text[..0] == [] && gaps[..1] == [gaps[0]];
    for i := 0 to |text|
      invariant line == Transmission(text[..i], gaps[..i + 1])
    {
      var trace := Putc(text[i], timers[i]);
      TransmissionFurther(text[..i], gaps[..i + 1], text[i], gaps[i + 1]);
      assert text[..i + 1] == text[..i] + [text[i]] && gaps[..i + 2] == gaps[..i + 1] + [gaps[i + 1]];
      line := line + (Levels(trace) + Idle(gaps[i + 1]));
    }
    assert text[..|text|] == text && gaps[..|text| + 1] == gaps;
    ReceiveTransmission(text, gaps);
  }
}
