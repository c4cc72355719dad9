/**
  Client code: concrete conversations with a scripted keyboard, checked
  against the command contracts alone.
 */
module Scenarios {
  import opened Codec
  import opened Link
  import opened Typematic
  import opened Commands

  /**
    Per-key filtering where the keyboard acknowledges the selector and the
    first key code but refuses the second: the third key and ECHO are never sent.
   */
  method AbortAfterSecondKey(ack: Frame, nak: Frame, k1: Byte, k2: Byte, k3: Byte)
    requires Decode(ack, Flags(USE, USE, USE)) == ACK
    requires Decode(nak, Flags(USE, USE, USE)) != ACK
  {
    var script: nat -> Frame := (i: nat) => if i < 2 then ack else nak;
    var kb := new Keyboard(script);
    var answers := Answers(script, kb.flags);
    AckRunGrow(answers, 0, 0);
    AckRunGrow(answers, 0, 1);
    AckRunStop(answers, 0, 2, 4);
    kb.DisableKeyEvents([k1, k2, k3], IGNORE, IGNORE);
    assert kb.sent == [MAKE_ONLY, k1, k2];
    assert kb.cursor == 3;
  }

  /** All-keys filtering with a keyboard that acknowledges everything: enable all, make-only, ECHO. */
  method AllKeysMakeOnly(ack: Frame)
    requires Decode(ack, Flags(USE, USE, USE)) == ACK
  {
    var script: nat -> Frame := (i: nat) => ack;
    var kb := new Keyboard(script);
    kb.ConfigKeys(IGNORE, IGNORE);
    assert kb.sent == [ALL_MAKE_BREAK_TYPEMATIC, ALL_MAKE_ONLY, ECHO];
    kb.ConfigKeys(USE, USE);
    assert kb.sent == [ALL_MAKE_BREAK_TYPEMATIC, ALL_MAKE_ONLY, ECHO, ALL_MAKE_BREAK_TYPEMATIC, ECHO];
  }

  /** Scan-code sets 0 and 4 cause no bus traffic; set 2 after an ACK sends the command and the set. */
  method ScanCodeSets(ack: Frame)
    requires Decode(ack, Flags(USE, USE, USE)) == ACK
  {
    var script: nat -> Frame := (i: nat) => ack;
    var kb := new Keyboard(script);
    kb.SetScanCodeSet(0);
    kb.SetScanCodeSet(4);
    assert kb.sent == [] && kb.cursor == 0;
    kb.SetScanCodeSet(2);
    assert kb.sent == [SET_SCAN_CODE_SET, 2];
  }

  /** A rate of 0 and a delay of 600 become 20 and 500. */
  method RepeatRateBounds(replies: nat -> Frame)
  {
    var kb := new Keyboard(replies);
    var rate, delay := kb.SetRepeatRateAndDelay(0, 600);
    Examples();
    var r: nat, d: nat :| IsNearest(Rates, 0, r) && IsNearest(Delays, 600, d)
      && rate == Rates[r] && delay == Delays[d];
    NearestUnique(Rates, 0, r, 31);
    NearestUnique(Delays, 600, d, 1);
    assert rate == 20 && delay == 500;
  }

  /**
    A frame for a byte with an even number of ones, its parity bit flipped
    from 1 to 0, is refused until parity checking is switched off.
   */
  method ParityToggle(d: Byte)
    requires PopCount(d, 8) % 2 == 0
  {
    CorruptedParity(d, Flags(USE, USE, USE));
    CorruptedParity(d, Flags(USE, USE, IGNORE));
    var bad := Encode(d)[9 := 1 - ParityBit(d)];
    var kb := new Keyboard((i: nat) => bad);
    var c := kb.GetChar();
    assert c == ERROR;
    kb.SetFlags(USE, USE, IGNORE);
    c := kb.GetChar();
    assert c == d;
  }
}
