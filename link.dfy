/**
  The link layer of the driver: receiving one byte (keyboard_getchar) and
  sending one byte (keyboard_write).

  The pins are abstracted.  A received frame is the sequence of the eleven
  levels the host samples on the data line, one per clock period; a sent
  byte is the ordered list of writes the host makes to its two pulldown
  outputs (and the one timed delay of the request-to-send handshake).
 */
module Link {
  import opened Codec

  /** Values of the three ignore flags. */
  const IGNORE: int := 1
  const USE: int := 0

  /** What keyboard_getchar returns for a frame that fails an enabled check. */
  const ERROR: Byte := 0

  /** The data-line levels of one keyboard-to-host frame, in the order they are sampled. */
  type Frame = s: seq<Bit> | |s| == 11 witness [0, 0, 0, 0, 0, 0, 0, 0, 0, 0, 1]

  /**
    The ignore flags igStart, igStop and igParity.  Each holds the byte the
    C `char` keeps of the integer it was set from; a check is enforced
    exactly when its flag equals USE.
   */
  datatype Flags = Flags(start: Byte, stop: Byte, parity: Byte)

  /** The eight data levels of a frame (positions 1..8), least significant first. */
  function Data(s: Frame): seq<Bit>
  {
    s[1..9]
  }

  /** The byte a frame carries: its data levels as binary digits, least significant first. */
  function Payload(s: Frame): Byte
  {
    assert Pow2(8) == 256;
    Word(Data(s))
  }

  /**
    What the driver's parity check accepts: a frame whose parity level is 1,
    or whose data levels hold an odd number of ones.
   */
  predicate ParityAccepted(s: Frame)
  {
    s[9] == 1 || Ones(Data(s)) % 2 == 1
  }

  /** Odd parity, as the PS/2 protocol defines it: data and parity levels hold an odd number of ones. */
  predicate ParityCorrect(s: Frame)
  {
    Ones(s[1..10]) % 2 == 1
  }

  /** The frame fails one of the checks its flag enables. */
  predicate Rejected(s: Frame, f: Flags)
  {
    || (s[0] == 1 && f.start == USE)
    || (s[10] == 0 && f.stop == USE)
    || (!ParityAccepted(s) && f.parity == USE)
  }

  /** The byte keyboard_getchar returns for the sampled frame `s`. */
  function Decode(s: Frame, f: Flags): Byte
  {
    if Rejected(s, f) then ERROR else Payload(s)
  }

  /**
    keyboard_getchar, after the clock waits: each of the eleven sampled
    levels is shifted into a word from the top (bit 10), so the k-th sample
    ends at bit k-1; then the start, stop and parity checks are made, each
    only when its flag is USE, and bits 1..8 of the word are returned.
   */
  method ReadFrame(samples: Frame, flags: Flags) returns (c: Byte)
    ensures c == Decode(samples, flags)
  {
    var data: nat := 0;
    var i := 1;
    while i < 12
      invariant 1 <= i <= 12
      invariant data == Shifted(samples[..i - 1])
    {
      assert samples[..i][..i - 1] == samples[..i - 1];
      ShiftedTop(samples[..i - 1], 12 - i);
      data := data / 2;
      if samples[i - 1] == 1 {
        data := Or(data, 1024);
      }
      i := i + 1;
    }
    assert samples[..11] == samples && Zeros(0) + samples == samples;
    ShiftedWord(samples, 0);
    FrameChecks(samples);
    if data % 2 == 1 && flags.start == USE {
      return ERROR;
    }
    if BitAt(data, 10) == 0 && flags.stop == USE {
      return ERROR;
    }
    var ok := CheckCRC(data);
    if !ok && flags.parity == USE {
      return ERROR;
    }
    c := (data / 2) % 256;
  }

  /** The three checks and the result of keyboard_getchar, read off the assembled word. */
  lemma FrameChecks(s: Frame)
    ensures Word(s) % 2 == s[0] && BitAt(Word(s), 10) == s[10]
    ensures BitAt(Word(s), 9) == 1 || PopCount((Word(s) / 2) % 256, 8) % 2 == 1 <==> ParityAccepted(s)
    ensures (Word(s) / 2) % 256 == Payload(s)
  {
    FrameFields(s);
    PopCountOfWord(Data(s));
  }

  function Zeros(n: nat): (z: seq<Bit>)
    ensures |z| == n
  {
    if n == 0 then [] else [0] + Zeros(n - 1)
  }

  lemma {:induction false} WordOfZeros(n: nat)
    ensures Word(Zeros(n)) == 0
  {
    if n > 0 {
      assert Zeros(n)[1..] == Zeros(n - 1);
      WordOfZeros(n - 1);
    }
  }

  /**
    The receive register after the levels `t` were shifted in, one per
    clock period: each step halves the register and puts the new level at bit 10.
   */
  function Shifted(t: seq<Bit>): nat
  {
    if t == [] then 0 else Shifted(t[..|t| - 1]) / 2 + (if t[|t| - 1] == 1 then 1024 else 0)
  }

  /**
    After |t| of the eleven levels, the register holds them in its top |t|
    bits, first level lowest, below them the `n` bits not yet filled.
   */
  lemma {:induction false} ShiftedWord(t: seq<Bit>, n: nat)
    requires n + |t| == 11
    ensures Shifted(t) == Word(Zeros(n) + t)
  {
    if t == [] {
      WordOfZeros(n);
      assert Zeros(n) + t == Zeros(n);
    } else {
      var init, last := t[..|t| - 1], t[|t| - 1];
      ShiftedWord(init, n + 1);
      ShiftIn(n, init, last);
      assert init + [last] == t;
    }
  }

  /**
    Before the eleventh level, bit 10 of the halved register is clear, so
    setting it with `| (1 << 10)` adds 1024.
   */
  lemma ShiftedTop(t: seq<Bit>, n: nat)
    requires n + |t| == 11 && 0 < n
    ensures Shifted(t) / 2 < 1024
    ensures Or(Shifted(t) / 2, 1024) == Shifted(t) / 2 + 1024
  {
    ShiftedWord(t, n);
    assert Pow2(11) == 2048 && Pow2(10) == 1024;
    OrDisjoint(Shifted(t) / 2, 1, 10);
  }

  /**
    One step of the receive loop: halving a word whose lowest bit is a
    padding zero drops that zero, and adding 1024 puts the new level at bit 10.
   */
  lemma ShiftIn(k: nat, t: seq<Bit>, b: Bit)
    requires k + 1 + |t| == 11
    ensures Word(Zeros(k + 1) + t) / 2 + (if b == 1 then 1024 else 0) == Word(Zeros(k) + (t + [b]))
  {
    var u := Zeros(k) + t;
    var w := Word(u);
    assert Zeros(k + 1) + t == [0] + u;
    WordCons(u);
    assert Word(Zeros(k + 1) + t) / 2 == w;
    assert Zeros(k) + (t + [b]) == u + [b];
    WordSnoc(u, b);
    assert |u| == 10 && Pow2(10) == 1024;
  }

  lemma WordCons(u: seq<Bit>)
    ensures Word([0] + u) == 2 * Word(u)
  {
    assert ([0] + u)[1..] == u;
  }

  lemma {:induction false} WordSnoc(u: seq<Bit>, b: Bit)
    ensures Word(u + [b]) == Word(u) + (if b == 1 then Pow2(|u|) else 0)
  {
    if u == [] {
      assert u + [b] == [b] && [b][1..] == [];
    } else {
      assert (u + [b])[1..] == u[1..] + [b];
      WordSnoc(u[1..], b);
    }
  }

  /** The frame the host puts on the wire for `d`: start 0, the data bits, the parity bit, stop 1. */
  function Encode(d: Byte): Frame
  {
    [0] + Bits(d, 8) + [ParityBit(d), 1]
  }

  /** The fields of a sent frame. */
  lemma EncodeFields(d: Byte)
    ensures var s := Encode(d);
      && s[0] == 0 && s[9] == ParityBit(d) && s[10] == 1
      && Data(s) == Bits(d, 8) && s[1..10] == Bits(d, 8) + [ParityBit(d)]
  {
    var s := Encode(d);
    assert s == [0] + (Bits(d, 8) + [ParityBit(d), 1]);
  }

  /** A sent frame carries the byte, and its data levels hold the byte's ones. */
  lemma EncodePayload(d: Byte)
    ensures Payload(Encode(d)) == d && Ones(Data(Encode(d))) == PopCount(d, 8)
  {
    var s := Encode(d);
    EncodeFields(d);
    OnesOfByte(d);
    assert Pow2(8) == 256;
    WordOfBits(d, 8);
  }

  /** Every frame the host sends for a byte passes all three checks and decodes to that byte. */
  lemma EncodeDecode(d: Byte, f: Flags)
    ensures ParityCorrect(Encode(d)) && ParityAccepted(Encode(d))
    ensures !Rejected(Encode(d), f)
    ensures Decode(Encode(d), f) == d
  {
    var s := Encode(d);
    EncodeFields(d);
    EncodePayload(d);
    OnesOfByte(d);
    OnesSnoc(Bits(d, 8), ParityBit(d));
    ParityBitOdd(d);
    assert Ones(s[1..10]) == PopCount(d, 8) + ParityBit(d);
    assert ParityAccepted(s);
  }

  /**
    The driver's parity check against the protocol's: it accepts every
    correct frame, and with the parity level 0 it accepts only correct ones,
    but with the parity level 1 it accepts every frame.
   */
  lemma ParityCheckCases(s: Frame)
    ensures ParityCorrect(s) ==> ParityAccepted(s)
    ensures s[9] == 0 ==> (ParityAccepted(s) <==> ParityCorrect(s))
    ensures s[9] == 1 ==> ParityAccepted(s)
  {
    assert s[1..10] == Data(s) + [s[9]];
    OnesSnoc(Data(s), s[9]);
  }

  /** A frame has correct odd parity exactly when its parity level is genCRC of the byte it carries. */
  lemma ParityCorrectBit(s: Frame)
    ensures ParityCorrect(s) <==> s[9] == ParityBit(Payload(s))
  {
    PayloadParity(s);
    CorrectOnes(s);
  }

  lemma PayloadParity(s: Frame)
    ensures ParityBit(Payload(s)) == if Ones(Data(s)) % 2 == 0 then 1 else 0
  {
    PopCountOfWord(Data(s));
  }

  lemma CorrectOnes(s: Frame)
    ensures ParityCorrect(s) <==> (Ones(Data(s)) + s[9]) % 2 == 1
  {
    assert s[1..10] == Data(s) + [s[9]];
    OnesSnoc(Data(s), s[9]);
  }

  /**
    Flipping the parity bit of a sent frame: with parity checking enabled
    the frame is refused only when the true parity bit was 1; the flipped
    frame with parity level 1 slips through.  With checking disabled the
    byte is always delivered.
   */
  lemma CorruptedParity(d: Byte, f: Flags)
    ensures var s := Encode(d)[9 := 1 - ParityBit(d)];
      && (f.parity == USE ==> Decode(s, f) == if ParityBit(d) == 1 then ERROR else d)
      && (f.parity != USE ==> Decode(s, f) == d)
  {
    var s := Encode(d)[9 := 1 - ParityBit(d)];
    EncodeFields(d);
    EncodePayload(d);
    assert Data(s) == Data(Encode(d));
  }

  /** With every flag set to something other than USE, no check can refuse a frame. */
  lemma IgnoringAllChecks(s: Frame, f: Flags)
    requires f.start != USE && f.stop != USE && f.parity != USE
    ensures Decode(s, f) == Payload(s)
  {
  }

  /** One write the host makes during a send. */
  datatype PinWrite =
    | ClockPulldown(level: Bit)
    | DataPulldown(level: Bit)
    | Delay(micros: nat)

  /**
    The request-to-send handshake: pull the clock low, wait 120 microseconds,
    pull the data line low (the start bit) and release the clock.
   */
  const RequestToSend: seq<PinWrite> :=
    [ClockPulldown(0), Delay(120), DataPulldown(0), ClockPulldown(1)]

  /** One data-pulldown write per level, in order. */
  function Drive(levels: seq<Bit>): (t: seq<PinWrite>)
    ensures |t| == |levels|
  {
    if levels == [] then [] else Drive(levels[..|levels| - 1]) + [DataPulldown(levels[|levels| - 1])]
  }

  /** The levels driven onto the data pulldown by a sequence of writes, in order. */
  function DataLine(t: seq<PinWrite>): seq<Bit>
  {
    if t == [] then []
    else (if t[0].DataPulldown? then [t[0].level] else []) + DataLine(t[1..])
  }

  /**
    The writes of keyboard_write(d): the handshake, then one data-pulldown
    write in each of the clock periods 1..10 (data bits, parity, stop) and
    none in period 11, where the keyboard's acknowledgement goes unread.
   */
  function WriteTrace(d: Byte): seq<PinWrite>
  {
    RequestToSend + Drive(Encode(d)[1..])
  }

  /** keyboard_write: the handshake, then one clock period per frame bit. */
  method WriteFrame(d: Byte) returns (trace: seq<PinWrite>)
    ensures trace == WriteTrace(d)
  {
    var par := GenCRC(d);
    trace := [ClockPulldown(0), Delay(120), DataPulldown(0), ClockPulldown(1)];
    ghost var levels := Encode(d)[1..];
    var bit := 1;
    while bit <= 11
      invariant 1 <= bit <= 12
      invariant bit <= 11 ==> trace == RequestToSend + Drive(levels[..bit - 1])
      invariant bit == 12 ==> trace == WriteTrace(d)
    {
      if bit <= 10 {
        DriveStep(levels, bit);
        LevelAt(d, bit - 1);
      } else {
        assert levels[..10] == levels;
      }
      if bit == 9 {
        trace := trace + [DataPulldown(par)];
      } else if bit == 10 {
        trace := trace + [DataPulldown(1)];
      } else if bit != 11 {
        trace := trace + [DataPulldown(BitAt(d, bit - 1))];
      }
      bit := bit + 1;
    }
  }

  /** The level sent in clock period `i + 1`: data bit `i`, then the parity bit, then the stop level. */
  lemma LevelAt(d: Byte, i: nat)
    requires i < 10
    ensures Encode(d)[1..][i] == if i < 8 then BitAt(d, i) else if i == 8 then ParityBit(d) else 1
  {
    if i < 8 {
      BitsAt(d, 8, i);
    }
  }

  /** Driving one more level appends one data-pulldown write. */
  lemma DriveStep(levels: seq<Bit>, n: nat)
    requires 0 < n <= |levels|
    ensures RequestToSend + Drive(levels[..n]) == (RequestToSend + Drive(levels[..n - 1])) + [DataPulldown(levels[n - 1])]
  {
    assert levels[..n][..n - 1] == levels[..n - 1];
  }

  /** Where each bit sits in the writes of a send. */
  lemma WriteTraceShape(d: Byte)
    ensures var t := WriteTrace(d);
      && |t| == 14 && t[..4] == RequestToSend
      && (forall k :: 0 <= k < 8 ==> t[4 + k] == DataPulldown(BitAt(d, k)))
      && t[12] == DataPulldown(ParityBit(d)) && t[13] == DataPulldown(1)
      && DataLine(t) == Encode(d)
  {
    var levels := Encode(d)[1..];
    forall k | 0 <= k < 10
      ensures WriteTrace(d)[4 + k] == DataPulldown(levels[k])
    {
      DriveAt(levels, k);
    }
    forall k | 0 <= k < 10
      ensures levels[k] == if k < 8 then BitAt(d, k) else if k == 8 then ParityBit(d) else 1
    {
      LevelAt(d, k);
    }
    assert WriteTrace(d)[12] == DataPulldown(levels[8]);
    assert WriteTrace(d)[13] == DataPulldown(levels[9]);
    DataLineOfSend(d);
  }

  lemma {:induction false} DriveAt(levels: seq<Bit>, k: nat)
    requires k < |levels|
    ensures Drive(levels)[k] == DataPulldown(levels[k])
  {
    if k < |levels| - 1 {
      assert levels[..|levels| - 1][k] == levels[k];
      DriveAt(levels[..|levels| - 1], k);
    }
  }

  lemma {:induction false} DataLineAppend(a: seq<PinWrite>, b: seq<PinWrite>)
    ensures DataLine(a + b) == DataLine(a) + DataLine(b)
  {
    if a == [] {
      assert a + b == b;
    } else {
      var h := if a[0].DataPulldown? then [a[0].level] else [];
      assert (a + b)[0] == a[0] && (a + b)[1..] == a[1..] + b;
      assert DataLine(a + b) == h + DataLine(a[1..] + b);
      DataLineAppend(a[1..], b);
      assert DataLine(a) == h + DataLine(a[1..]);
    }
  }

  lemma {:induction false} DataLineOfDrive(levels: seq<Bit>)
    ensures DataLine(Drive(levels)) == levels
  {
    if levels != [] {
      var init := levels[..|levels| - 1];
      DataLineOfDrive(init);
      DataLineAppend(Drive(init), [DataPulldown(levels[|levels| - 1])]);
      assert levels == init + [levels[|levels| - 1]];
    }
  }

  /** The levels a send drives onto the data line are exactly the frame the receiver decodes. */
  lemma DataLineOfSend(d: Byte)
    ensures DataLine(WriteTrace(d)) == Encode(d)
  {
    DataLineAppend(RequestToSend, Drive(Encode(d)[1..]));
    DataLineOfDrive(Encode(d)[1..]);
    assert DataLine(RequestToSend) == [0];
    assert [0] + Encode(d)[1..] == Encode(d);
  }

  /** Sending, then sampling what was sent, gives back the byte with every check passing. */
  lemma SendReceive(d: Byte, f: Flags)
    ensures |DataLine(WriteTrace(d))| == 11
    ensures Decode(DataLine(WriteTrace(d)), f) == d
  {
    DataLineOfSend(d);
    EncodeDecode(d, f);
  }
}
