/**
  The bit-frame codec of the PS/2 keyboard driver: the odd-parity bit the
  host sends after a data byte (genCRC) and the parity check applied to a
  received 11-bit frame (checkCRC), together with the bit arithmetic both
  of them, the receiver and the transmitter are stated in.
 */
module Codec {

  /** A logic level on a line, or one bit of a frame. */
  type Bit = b: int | 0 <= b <= 1

  /** A byte, taken as unsigned (the driver's `unsigned char`). */
  type Byte = b: int | 0 <= b < 256

  function Pow2(n: nat): (r: nat)
  {
    if n == 0 then 1 else 2 * Pow2(n - 1)
  }

  /** Bit `k` of `x`: 1 exactly when `x & (1 << k)` is non-zero. */
  function BitAt(x: nat, k: nat): Bit
  {
    if k == 0 then x % 2 else BitAt(x / 2, k - 1)
  }

  /** `a | b` on naturals: bit k of the result is set when bit k of either argument is. */
  function Or(a: nat, b: nat): nat
    decreases a + b
  {
    if a == 0 && b == 0 then 0
    else (if a % 2 == 1 || b % 2 == 1 then 1 else 0) + 2 * Or(a / 2, b / 2)
  }

  lemma {:induction false} OrZero(b: nat)
    ensures Or(0, b) == b
  {
    if b > 0 {
      OrZero(b / 2);
    }
  }

  /** Or-ing a number below 2^k with a multiple of 2^k adds them: their bits do not overlap. */
  lemma {:induction false} OrDisjoint(a: nat, b: nat, k: nat)
    requires a < Pow2(k)
    ensures Or(a, b * Pow2(k)) == a + b * Pow2(k)
  {
    if k == 0 {
      OrZero(b);
    } else {
      var p := Pow2(k - 1);
      var h := b * p;
      assert Pow2(k) == 2 * p && a / 2 < p;
      Twice(b, p);
      OrDisjoint(a / 2, b, k - 1);
      if a != 0 || h != 0 {
        assert Or(a, 2 * h) == a % 2 + 2 * Or(a / 2, h);
      }
      assert a % 2 + 2 * (a / 2 + h) == a + 2 * h;
    }
  }

  lemma Twice(b: nat, p: nat)
    ensures b * (2 * p) == 2 * (b * p)
  {
  }

  /** The number of set bits among the low `n` bits of `x`. */
  function PopCount(x: nat, n: nat): nat
  {
    if n == 0 then 0 else x % 2 + PopCount(x / 2, n - 1)
  }

  /** The number of ones in a sequence of bits. */
  function Ones(s: seq<Bit>): nat
  {
    if s == [] then 0 else s[0] + Ones(s[1..])
  }

  /** The number a sequence of bits spells when read least significant bit first. */
  function Word(s: seq<Bit>): (w: nat)
    ensures w < Pow2(|s|)
  {
    if s == [] then 0 else s[0] + 2 * Word(s[1..])
  }

  /** The low `n` bits of `x`, least significant first. */
  function Bits(x: nat, n: nat): (s: seq<Bit>)
    ensures |s| == n
  {
    if n == 0 then [] else [x % 2] + Bits(x / 2, n - 1)
  }

  /** The odd-parity bit of a byte: set exactly when the byte has an even number of ones. */
  function ParityBit(b: Byte): Bit
  {
    if PopCount(b, 8) % 2 == 0 then 1 else 0
  }

  /** The byte together with its parity bit holds an odd number of ones. */
  lemma ParityBitOdd(b: Byte)
    ensures (PopCount(b, 8) + ParityBit(b)) % 2 == 1
  {
  }

  /**
    genCRC: counts the ones of `data` by testing and shifting out its low
    bit eight times, and returns 1 when the count is even.
   */
  method GenCRC(data: Byte) returns (p: Bit)
    ensures p == ParityBit(data)
  {
    ghost var total := PopCount(data, 8);
    var d: nat := data;
    var count := 0;
    var i := 0;
    while i < 8
      invariant 0 <= i <= 8
      invariant count + PopCount(d, 8 - i) == total
    {
      assert PopCount(d, 8 - i) == d % 2 + PopCount(d / 2, 8 - i - 1);
      if d % 2 == 1 {
        count := count + 1;
      }
      d := d / 2;
      i := i + 1;
    }
    assert count == total;
    p := if count % 2 != 1 then 1 else 0;
  }

  /**
    checkCRC: counts the ones of the data bits 1..8 of a received word and
    compares the count's low bit with `frame & 512`.  That mask is 0 or 512,
    never 1, so every word with bit 9 set is accepted, and with bit 9 clear
    the word is accepted exactly when the data bits hold an odd number of ones.
   */
  method CheckCRC(frame: nat) returns (ok: bool)
    ensures ok <==> BitAt(frame, 9) == 1 || PopCount((frame / 2) % 256, 8) % 2 == 1
  {
    var count := 0;
    var tmp := frame;
    var data: nat := (frame / 2) % 256;
    ghost var bits := data;
    var i := 0;
    while i < 8
      invariant 0 <= i <= 8
      invariant count + PopCount(data, 8 - i) == PopCount(bits, 8)
    {
      assert PopCount(data, 8 - i) == data % 2 + PopCount(data / 2, 8 - i - 1);
      if data % 2 == 1 {
        count := count + 1;
      }
      data := data / 2;
      i := i + 1;
    }
    assert count == PopCount(bits, 8);
    var masked := if BitAt(tmp, 9) == 1 then 512 else 0;  // tmp & 512
    ok := count % 2 != masked;
    assert masked == 512 ==> ok;
  }

  /** Reading the number a bit sequence spells gives back its bits. */
  lemma {:induction false} WordBit(s: seq<Bit>, k: nat)
    requires k < |s|
    ensures BitAt(Word(s), k) == s[k]
  {
    var w := Word(s[1..]);
    assert Word(s) == s[0] + 2 * w;
    if k > 0 {
      assert Word(s) / 2 == w;
      WordBit(s[1..], k - 1);
      assert s[1..][k - 1] == s[k];
    }
  }

  /** Bits laid side by side: the second run is worth 2^|a| times its own value. */
  lemma {:induction false} WordSplit(a: seq<Bit>, b: seq<Bit>)
    ensures Word(a + b) == Word(a) + Pow2(|a|) * Word(b)
  {
    if a == [] {
      assert a + b == b;
    } else {
      assert (a + b)[1..] == a[1..] + b;
      WordSplit(a[1..], b);
      var p, w, t := Pow2(|a| - 1), Word(b), Word(a[1..]);
      assert Word(a + b) == a[0] + 2 * Word(a[1..] + b);
      assert Pow2(|a|) == 2 * p && Word(a) == a[0] + 2 * t;
      Regroup(a[0], t, p, w);
    }
  }

  /** Spelling out the low bits of a number that fits gives the number back. */
  lemma {:induction false} WordOfBits(x: nat, n: nat)
    requires x < Pow2(n)
    ensures Word(Bits(x, n)) == x
  {
    if n > 0 {
      WordOfBits(x / 2, n - 1);
    }
  }

  /** The `k`-th element of `Bits(x, n)` is bit `k` of `x`. */
  lemma {:induction false} BitsAt(x: nat, n: nat, k: nat)
    requires k < n
    ensures Bits(x, n)[k] == BitAt(x, k)
  {
    if k > 0 {
      BitsAt(x / 2, n - 1, k - 1);
    }
  }

  /** Counting the set bits of a word counts the ones of the bits it was made of. */
  lemma {:induction false} PopCountOfWord(s: seq<Bit>)
    ensures PopCount(Word(s), |s|) == Ones(s)
  {
    if s != [] {
      var w := Word(s[1..]);
      assert Word(s) == s[0] + 2 * w;
      assert Word(s) % 2 == s[0] && Word(s) / 2 == w;
      PopCountOfWord(s[1..]);
    }
  }

  /** A byte and its spelled-out bits hold the same number of ones. */
  lemma OnesOfByte(b: Byte)
    ensures Ones(Bits(b, 8)) == PopCount(b, 8)
  {
    WordOfBits(b, 8);
    PopCountOfWord(Bits(b, 8));
  }

  /** Appending one bit adds it to the count of ones. */
  lemma {:induction false} OnesSnoc(s: seq<Bit>, b: Bit)
    ensures Ones(s + [b]) == Ones(s) + b
  {
    if s == [] {
      assert s + [b] == [b];
    } else {
      assert (s + [b])[1..] == s[1..] + [b];
      OnesSnoc(s[1..], b);
    }
  }

  /**
    For an 11-bit word, `(w >> 1) & 255` are the bits at positions 1..8,
    bit 9 is the parity position and bit 10 the stop position.
   */
  lemma FrameFields(s: seq<Bit>)
    requires |s| == 11
    ensures (Word(s) / 2) % 256 == Word(s[1..9])
    ensures Word(s) % 2 == s[0]
    ensures BitAt(Word(s), 9) == s[9] && BitAt(Word(s), 10) == s[10]
  {
    WordBit(s, 0);
    WordBit(s, 9);
    WordBit(s, 10);
    FrameByte(s);
  }

  /** `(w >> 1) & 255` of an 11-bit word: the bits at positions 1..8. */
  lemma FrameByte(s: seq<Bit>)
    requires |s| == 11
    ensures (Word(s) / 2) % 256 == Word(s[1..9])
  {
    var low, high := Word(s[1..9]), Word(s[9..]);
    assert Word(s) / 2 == Word(s[1..]);
    assert s[1..] == s[1..9] + s[9..];
    WordSplit(s[1..9], s[9..]);
    assert Pow2(8) == 256;
    assert Word(s[1..]) == low + 256 * high;
    assert low < 256;
    ModOfSplit(low, high);
  }

  lemma Regroup(x: int, t: int, p: int, w: int)
    ensures x + 2 * (t + p * w) == (x + 2 * t) + (2 * p) * w
  {
  }

  lemma ModOfSplit(low: nat, high: nat)
    requires low < 256
    ensures (low + 256 * high) % 256 == low
  {
  }
}
