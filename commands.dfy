/**
  The command protocol of the driver: the keyboard commands, each a fixed
  sequence of byte sends and replies read back, that stops at the first
  reply that is not an acknowledgement where the driver checks one.

  The driver's global state becomes a `Keyboard` object: the three ignore
  flags, every byte sent so far, and the keyboard's side of the
  conversation as a script of reply frames with a cursor to the next one
  keyboard_getchar will sample.
 */
module Commands {
  import opened Codec
  import opened Link
  import opened Typematic

  datatype Option<T> = None | Some(value: T)

  /** Command and reply codes. */
  const ACK: Byte := 0xFA
  const SETLEDS: Byte := 0xED
  const ECHO: Byte := 0xEE
  const SET_TYPEMATIC_RD: Byte := 0xF3
  const SET_SCAN_CODE_SET: Byte := 0xF0
  const ENABLE: Byte := 0xF4
  const DISABLE: Byte := 0xF5
  const DEFAULT: Byte := 0xF6
  const RESET: Byte := 0xFF
  const RESEND: Byte := 0xFE

  /** Single-key event selectors. */
  const MAKE_ONLY: Byte := 0xFD
  const MAKE_BREAK: Byte := 0xFC
  const MAKE_TYPEMATIC: Byte := 0xFB

  /** All-keys event selectors. */
  const ALL_MAKE_ONLY: Byte := 0xF9
  const ALL_MAKE_BREAK: Byte := 0xF8
  const ALL_MAKE_TYPEMATIC: Byte := 0xF7
  const ALL_MAKE_BREAK_TYPEMATIC: Byte := 0xFA

  /** Which messages a key sends besides its make code. */
  datatype KeyEvents = KeyEvents(breaks: bool, typematic: bool)

  /** What the keyboard makes of a single-key selector. */
  function SingleKeyEvents(code: Byte): Option<KeyEvents>
  {
    if code == MAKE_ONLY then Some(KeyEvents(false, false))
    else if code == MAKE_BREAK then Some(KeyEvents(true, false))
    else if code == MAKE_TYPEMATIC then Some(KeyEvents(false, true))
    else None
  }

  /** What the keyboard makes of an all-keys selector. */
  function AllKeysEvents(code: Byte): Option<KeyEvents>
  {
    if code == ALL_MAKE_ONLY then Some(KeyEvents(false, false))
    else if code == ALL_MAKE_BREAK then Some(KeyEvents(true, false))
    else if code == ALL_MAKE_TYPEMATIC then Some(KeyEvents(false, true))
    else if code == ALL_MAKE_BREAK_TYPEMATIC then Some(KeyEvents(true, true))
    else None
  }

  /** A pair of flag values that selects something to switch off: each USE or IGNORE, not both USE. */
  predicate DisablesSomething(brk: int, typematic: int)
  {
    && brk in {USE, IGNORE} && typematic in {USE, IGNORE}
    && (brk == IGNORE || typematic == IGNORE)
  }

  /**
    The selector keyboard_disablekeyevents sends for its break and
    typematic arguments; none for (USE, USE) or for any other value.
   */
  function SingleKeyOpcode(brk: int, typematic: int): Option<Byte>
  {
    if brk == IGNORE && typematic == IGNORE then Some(MAKE_ONLY)
    else if brk == IGNORE && typematic == USE then Some(MAKE_TYPEMATIC)
    else if typematic == IGNORE && brk == USE then Some(MAKE_BREAK)
    else None
  }

  /** The selector keyboard_configkeys sends, after enabling every event, to switch some off. */
  function AllKeysOpcode(brk: int, typematic: int): Option<Byte>
  {
    if brk == IGNORE && typematic == IGNORE then Some(ALL_MAKE_ONLY)
    else if brk == IGNORE && typematic == USE then Some(ALL_MAKE_TYPEMATIC)
    else if typematic == IGNORE && brk == USE then Some(ALL_MAKE_BREAK)
    else None
  }

  /**
    keyboard_disablekeyevents sends a selector exactly when the arguments
    ask to switch something off, and the keyboard reads it as keeping the
    break and typematic messages exactly for the arguments equal to USE.
   */
  lemma SingleKeySelector(brk: int, typematic: int)
    ensures SingleKeyOpcode(brk, typematic).Some? <==> DisablesSomething(brk, typematic)
    ensures var op := SingleKeyOpcode(brk, typematic);
      op.Some? ==> SingleKeyEvents(op.value) == Some(KeyEvents(brk == USE, typematic == USE))
  {
  }

  /** The same for the all-keys selectors of keyboard_configkeys. */
  lemma AllKeysSelector(brk: int, typematic: int)
    ensures AllKeysOpcode(brk, typematic).Some? <==> DisablesSomething(brk, typematic)
    ensures var op := AllKeysOpcode(brk, typematic);
      op.Some? ==> AllKeysEvents(op.value) == Some(KeyEvents(brk == USE, typematic == USE))
  {
  }

  /** The bytes sent for an optional selector. */
  function OpBytes(op: Option<Byte>): (bs: seq<Byte>)
  {
    if op.Some? then [op.value] else []
  }

  /**
    The parameter byte of set-LEDs, `scroll | num << 1 | caps << 2`, cut
    to the eight bits keyboard_write takes.
   */
  function LedByte(num: int, caps: int, scroll: int): Byte
  {
    (((num % 256) as bv8 << 1) | ((caps % 256) as bv8 << 2) | (scroll % 256) as bv8) as int
  }

  /**
    For lamp states 0 or 1 the keyboard reads scroll lock from bit 0, num
    lock from bit 1 and caps lock from bit 2, and no other bit is set.
   */
  lemma LedLayout(num: Bit, caps: Bit, scroll: Bit)
    ensures LedByte(num, caps, scroll) == scroll + 2 * num + 4 * caps
    ensures var b := LedByte(num, caps, scroll);
      b < 8 && BitAt(b, 0) == scroll && BitAt(b, 1) == num && BitAt(b, 2) == caps
  {
    var b := LedByte(num, caps, scroll);
    var low := ((num as bv8) << 1) | ((caps as bv8) << 2) | (scroll as bv8);
    assert num % 256 == num && caps % 256 == caps && scroll % 256 == scroll;
    assert b == low as int;
    assert low == (scroll + 2 * num + 4 * caps) as bv8;
    assert BitAt(b, 1) == (b / 2) % 2;
    assert BitAt(b, 2) == BitAt(b / 2, 1) == ((b / 2) / 2) % 2;
  }

  /** Every reply frame as keyboard_getchar decodes it under the flags `f`. */
  function Answers(replies: nat -> Frame, f: Flags): nat -> Byte
  {
    (j: nat) => Decode(replies(j), f)
  }

  /**
    How many of the answers at positions from, from+1, ... are ACK in a
    row, counting at most `cap` of them.
   */
  function AckRun(answers: nat -> Byte, from: nat, cap: nat): (n: nat)
    ensures n <= cap
    decreases cap
  {
    if cap == 0 || answers(from) != ACK then 0
    else 1 + AckRun(answers, from + 1, cap - 1)
  }

  /** A run of `k` acknowledgements followed by one more grows to `k + 1`. */
  lemma {:induction false} AckRunGrow(answers: nat -> Byte, from: nat, k: nat)
    requires AckRun(answers, from, k) == k && answers(from + k) == ACK
    ensures AckRun(answers, from, k + 1) == k + 1
    decreases k
  {
    if k > 0 {
      AckRunGrow(answers, from + 1, k - 1);
    }
  }

  /** A run of `k` acknowledgements followed by a refusal is `k` long under any larger cap. */
  lemma {:induction false} AckRunStop(answers: nat -> Byte, from: nat, k: nat, cap: nat)
    requires k < cap && AckRun(answers, from, k) == k && answers(from + k) != ACK
    ensures AckRun(answers, from, cap) == k
    decreases k
  {
    if k > 0 {
      AckRunStop(answers, from + 1, k - 1, cap - 1);
    }
  }

  /**
    The bytes keyboard_disablekeyevents sends after its selector when the
    first `n` replies are ACK: n = 0 sends nothing more; 1 <= n <= |keys|
    sends the first n key codes; n = |keys| + 1 sends every key code and ECHO.
   */
  function KeysSent(keys: seq<Byte>, n: nat): seq<Byte>
    requires n <= |keys| + 1
  {
    if n <= |keys| then keys[..n] else keys + [ECHO]
  }

  /** The replies keyboard_disablekeyevents reads: one per byte sent before ECHO, stopping at the first refusal. */
  function RepliesRead(keys: seq<Byte>, n: nat): nat
    requires n <= |keys| + 1
  {
    if n <= |keys| then n + 1 else |keys| + 1
  }

  class Keyboard {
    /** igStart, igStop and igParity. */
    var flags: Flags
    /** Every byte keyboard_write has sent, in order. */
    var sent: seq<Byte>
    /** The frames the keyboard answers with, in the order the host samples them. */
    const replies: nat -> Frame
    /** How many reply frames keyboard_getchar has sampled. */
    var cursor: nat

    /** The byte keyboard_getchar returns for reply `i`, under the current flags. */
    function Reply(i: nat): Byte
      reads this
    {
      Decode(replies(i), flags)
    }

    /** Initial state: every check enforced (igStart = igStop = igParity = USE), nothing sent. */
    constructor (replies: nat -> Frame)
      ensures flags == Flags(USE, USE, USE)
      ensures sent == []
      ensures this.replies == replies && cursor == 0
    {
      this.flags := Flags(USE, USE, USE);
      this.sent := [];
      this.replies := replies;
      this.cursor := 0;
    }

    /** keyboard_setflags: each flag keeps the low byte of its integer argument. */
    method SetFlags(start: int, stop: int, parity: int)
      modifies this
      ensures flags == Flags(start % 256, stop % 256, parity % 256)
      ensures sent == old(sent) && cursor == old(cursor)
    {
      flags := Flags(start % 256, stop % 256, parity % 256);
    }

    /**
      keyboard_write: one byte onto the wire.  The pin writes that carry it
      are those of WriteFrame; the object records the byte.
     */
    method Write(d: Byte)
      modifies this
      ensures sent == old(sent) + [d]
      ensures flags == old(flags) && cursor == old(cursor)
    {
      var _ := WriteFrame(d);
      sent := sent + [d];
    }

    /** keyboard_getchar: sample the next reply frame and check it under the current flags. */
    method GetChar() returns (c: Byte)
      modifies this
      ensures c == Reply(old(cursor)) && cursor == old(cursor) + 1
      ensures flags == old(flags) && sent == old(sent)
    {
      c := ReadFrame(replies(cursor), flags);
      cursor := cursor + 1;
    }

    /** keyboard_setleds: the set-LEDs command and its parameter byte; no reply is read. */
    method SetLeds(num: int, caps: int, scroll: int)
      modifies this
      ensures sent == old(sent) + [SETLEDS, LedByte(num, caps, scroll)]
      ensures flags == old(flags) && cursor == old(cursor)
    {
      Write(SETLEDS);
      Write(LedByte(num, caps, scroll));
    }

    /**
      keyboard_disablekeyevents: the selector, then each key code in turn,
      each followed by one reply; a reply other than ACK ends the command on
      the spot; only when every reply was ACK is the list closed with ECHO.
      With `n` the number of leading ACK replies, at most one per byte sent:
      n = 0 sends only the selector, 1 <= n <= |keys| sends the first n key
      codes, and n = |keys| + 1 sends every key code and ECHO.
     */
    method DisableKeyEvents(keys: seq<Byte>, brk: int, typematic: int)
      modifies this
      ensures flags == old(flags)
      ensures var n := AckRun(Answers(replies, flags), old(cursor), |keys| + 1);
        && sent == old(sent) + OpBytes(SingleKeyOpcode(brk, typematic)) + KeysSent(keys, n)
        && cursor == old(cursor) + RepliesRead(keys, n)
    {
      WriteSelector(SingleKeyOpcode(brk, typematic));
      SendKeyList(keys);
    }

    /**
      What keyboard_disablekeyevents does after its selector: read a reply,
      and on ACK send the key codes, closing the list with ECHO only when
      every key code was acknowledged.
     */
    method SendKeyList(keys: seq<Byte>)
      modifies this
      ensures flags == old(flags)
      ensures var n := AckRun(Answers(replies, flags), old(cursor), |keys| + 1);
        && sent == old(sent) + KeysSent(keys, n)
        && cursor == old(cursor) + RepliesRead(keys, n)
    {
      ghost var c0 := cursor;
      var ret := GetChar();
      if ret != ACK {
        assert AckRun(Answers(replies, flags), c0, |keys| + 1) == 0;
        return;
      }
      var allAcked := SendKeyCodes(keys);
      ghost var m := AckRun(Answers(replies, flags), c0 + 1, |keys|);
      assert AckRun(Answers(replies, flags), c0, |keys| + 1) == m + 1;
      if !allAcked {
        assert KeysSent(keys, m + 1) == keys[..m + 1];
        return;
      }
      Write(ECHO);
      assert keys[..|keys|] == keys;
    }

    /** The selector byte, when there is one. */
    method WriteSelector(op: Option<Byte>)
      modifies this
      ensures sent == old(sent) + OpBytes(op)
      ensures flags == old(flags) && cursor == old(cursor)
    {
      if op.Some? {
        Write(op.value);
      }
    }

    /**
      The key-code loop of keyboard_disablekeyevents: each code is sent and
      followed by one reply; the loop ends early at a reply that is not ACK.
     */
    method SendKeyCodes(keys: seq<Byte>) returns (allAcked: bool)
      modifies this
      ensures flags == old(flags)
      ensures var n := AckRun(Answers(replies, flags), old(cursor), |keys|);
        && allAcked == (n == |keys|)
        && sent == old(sent) + keys[..if n < |keys| then n + 1 else n]
        && cursor == old(cursor) + (if n < |keys| then n + 1 else n)
    {
      ghost var c0, s0 := cursor, sent;
      var i := 0;
      while i < |keys|
        invariant 0 <= i <= |keys|
        invariant flags == old(flags)
        invariant cursor == c0 + i
        invariant sent == s0 + keys[..i]
        invariant AckRun(Answers(replies, flags), c0, i) == i
      {
        Write(keys[i]);
        assert keys[..i + 1] == keys[..i] + [keys[i]];
        var ret := GetChar();
        if ret != ACK {
          AckRunStop(Answers(replies, flags), c0, i, |keys|);
          return false;
        }
        AckRunGrow(Answers(replies, flags), c0, i);
        i := i + 1;
      }
      return true;
    }

    /**
      keyboard_configkeys: enable every event for every key, read a reply,
      send the selector that switches events off (none for USE, USE), read
      a reply, then send ECHO and read its reply.  A reply other than ACK
      to either of the first two ends the command before any later send.
     */
    method ConfigKeys(brk: int, typematic: int)
      modifies this
      ensures flags == old(flags)
      ensures var op := OpBytes(AllKeysOpcode(brk, typematic));
        if Reply(old(cursor)) != ACK then
          sent == old(sent) + [ALL_MAKE_BREAK_TYPEMATIC] && cursor == old(cursor) + 1
        else if Reply(old(cursor) + 1) != ACK then
          sent == old(sent) + [ALL_MAKE_BREAK_TYPEMATIC] + op && cursor == old(cursor) + 2
        else
          sent == old(sent) + [ALL_MAKE_BREAK_TYPEMATIC] + op + [ECHO] && cursor == old(cursor) + 3
    {
      Write(ALL_MAKE_BREAK_TYPEMATIC);
      var ret := GetChar();
      if ret != ACK {
        return;
      }
      WriteSelector(AllKeysOpcode(brk, typematic));
      ret := GetChar();
      if ret != ACK {
        return;
      }
      Write(ECHO);
      var _ := GetChar();
    }

    /**
      keyboard_setRepeatRateAndDelay: the nearest supported rate and delay
      are chosen, sent packed after the set-typematic command, and returned.
     */
    method SetRepeatRateAndDelay(rate: int, delay: int) returns (actualRate: int, actualDelay: int)
      modifies this
      ensures flags == old(flags) && cursor == old(cursor)
      ensures exists r: nat, d: nat ::
        && IsNearest(Rates, rate, r) && IsNearest(Delays, delay, d)
        && sent == old(sent) + [SET_TYPEMATIC_RD, ControlByte(r, d)]
        && actualRate == Rates[r] && actualDelay == Delays[d]
    {
      TablesMonotone();
      var rateId := NearestIndex(Rates, rate);
      var delayId := NearestIndex(Delays, delay);
      var cmd := ControlByte(rateId, delayId);
      Write(SET_TYPEMATIC_RD);
      Write(cmd);
      actualRate, actualDelay := Rates[rateId], Delays[delayId];
    }

    /**
      keyboard_setScanCodeSet: nothing for a set outside 1..3; otherwise the
      command, one reply, and the set number only if that reply is ACK.
     */
    method SetScanCodeSet(n: int)
      modifies this
      ensures flags == old(flags)
      ensures if n < 1 || n > 3 then
          sent == old(sent) && cursor == old(cursor)
        else if Reply(old(cursor)) != ACK then
          sent == old(sent) + [SET_SCAN_CODE_SET] && cursor == old(cursor) + 1
        else
          sent == old(sent) + [SET_SCAN_CODE_SET, n] && cursor == old(cursor) + 1
    {
      if n > 3 || n < 1 {
        return;
      }
      Write(SET_SCAN_CODE_SET);
      var ret := GetChar();
      if ret != ACK {
        return;
      }
      Write(n);
    }

    /** keyboard_enable: the enable command alone. */
    method Enable()
      modifies this
      ensures flags == old(flags) && cursor == old(cursor)
      ensures sent == old(sent) + [ENABLE]
    {
      Write(ENABLE);
    }

    /** keyboard_disable: the disable command alone. */
    method Disable()
      modifies this
      ensures flags == old(flags) && cursor == old(cursor)
      ensures sent == old(sent) + [DISABLE]
    {
      Write(DISABLE);
    }

    /** keyboard_default: the set-default command alone. */
    method Default()
      modifies this
      ensures flags == old(flags) && cursor == old(cursor)
      ensures sent == old(sent) + [DEFAULT]
    {
      Write(DEFAULT);
    }

    /** keyboard_reset: the reset command, then one reply, read and not looked at. */
    method Reset()
      modifies this
      ensures flags == old(flags)
      ensures sent == old(sent) + [RESET] && cursor == old(cursor) + 1
    {
      Write(RESET);
      var _ := GetChar();
    }

    /** keyboard_resend: the resend command; returns the reply. */
    method Resend() returns (c: Byte)
      modifies this
      ensures flags == old(flags)
      ensures sent == old(sent) + [RESEND] && cursor == old(cursor) + 1
      ensures c == Reply(old(cursor))
    {
      Write(RESEND);
      c := GetChar();
    }

    /** keyboard_echo: the echo command; returns the reply. */
    method Echo() returns (c: Byte)
      modifies this
      ensures flags == old(flags)
      ensures sent == old(sent) + [ECHO] && cursor == old(cursor) + 1
      ensures c == Reply(old(cursor))
    {
      Write(ECHO);
      c := GetChar();
    }
  }
}
