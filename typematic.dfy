/**
  Typematic rate and delay selection (keyboard_setRepeatRateAndDelay): the
  requested repeat rate and delay are each replaced by the nearest entry of
  a fixed table, and the two table indices are packed into the parameter
  byte of the set-typematic command.
 */
module Typematic {
  import opened Codec

  /** Repeat rates the keyboard supports, in tenths of characters per second, fastest first. */
  const Rates: seq<int> :=
    [300, 267, 240, 218, 207, 185, 171, 160, 150, 133, 120,
     109, 100, 92, 86, 80, 75, 67, 60, 55, 50, 46, 43, 40,
     37, 33, 30, 27, 25, 23, 21, 20]

  /** Delays before repeating, in milliseconds, shortest first. */
  const Delays: seq<int> := [250, 500, 750, 1000]

  /** The driver's abs. */
  function Abs(i: int): (r: nat)
    ensures r == i || r == -i
  {
    if i < 0 then -i else i
  }

  /** Each entry is smaller than the one before it. */
  predicate Decreasing(t: seq<int>)
  {
    forall i :: 0 < i < |t| ==> t[i - 1] > t[i]
  }

  /** Each entry is larger than the one before it. */
  predicate Increasing(t: seq<int>)
  {
    forall i :: 0 < i < |t| ==> t[i - 1] < t[i]
  }

  /**
    Entry `k` of `t` is the one nearest to `x`: no entry is closer, and
    every entry before it is strictly farther (ties go to the lowest index).
   */
  predicate IsNearest(t: seq<int>, x: int, k: nat)
  {
    && k < |t|
    && (forall j :: 0 <= j < |t| ==> Abs(x - t[k]) <= Abs(x - t[j]))
    && (forall j :: 0 <= j < k ==> Abs(x - t[k]) < Abs(x - t[j]))
  }

  lemma {:induction false} DecreasingApart(t: seq<int>, i: nat, j: nat)
    requires Decreasing(t) && i < j < |t|
    ensures t[i] > t[j]
  {
    if i < j - 1 {
      DecreasingApart(t, i, j - 1);
    }
  }

  lemma {:induction false} IncreasingApart(t: seq<int>, i: nat, j: nat)
    requires Increasing(t) && i < j < |t|
    ensures t[i] < t[j]
  {
    if i < j - 1 {
      IncreasingApart(t, i, j - 1);
    }
  }

  /**
    Why the scan may stop early: in a monotone table, once an entry after
    the best one so far is farther from `x`, every later entry is farther still.
   */
  lemma FartherBeyond(t: seq<int>, x: int, best: nat, i: nat)
    requires Decreasing(t) || Increasing(t)
    requires best < i < |t| && Abs(x - t[i]) > Abs(x - t[best])
    ensures forall j :: i < j < |t| ==> Abs(x - t[j]) > Abs(x - t[best])
  {
    forall j | i < j < |t|
      ensures Abs(x - t[j]) > Abs(x - t[best])
    {
      if Decreasing(t) {
        DecreasingApart(t, best, i);
        DecreasingApart(t, i, j);
      } else {
        IncreasingApart(t, best, i);
        IncreasingApart(t, i, j);
      }
    }
  }

  /**
    The search loop of keyboard_setRepeatRateAndDelay: a forward scan that
    keeps the first strictly closer entry and stops at the first entry
    farther than the best so far.
   */
  method NearestIndex(t: seq<int>, x: int) returns (id: nat)
    requires |t| > 0 && (Decreasing(t) || Increasing(t))
    ensures IsNearest(t, x, id)
  {
    var diff := Abs(x - t[0]);
    id := 0;
    var i := 1;
    while i < |t|
      invariant 1 <= i <= |t|
      invariant id < i && diff == Abs(x - t[id])
      invariant forall j :: 0 <= j < i ==> diff <= Abs(x - t[j])
      invariant forall j :: 0 <= j < id ==> diff < Abs(x - t[j])
    {
      if Abs(x - t[i]) < diff {
        diff := Abs(x - t[i]);
        id := i;
      }
      if Abs(x - t[i]) > diff {
        FartherBeyond(t, x, id, i);
        break;
      }
      i := i + 1;
    }
  }

  /** The nearest entry is determined: two entries nearest to the same value are the same entry. */
  lemma NearestUnique(t: seq<int>, x: int, k1: nat, k2: nat)
    requires IsNearest(t, x, k1) && IsNearest(t, x, k2)
    ensures k1 == k2
  {
    var d1, d2 := Abs(x - t[k1]), Abs(x - t[k2]);
    assert d1 <= d2 && d2 <= d1;
    assert k1 < k2 ==> d2 < d1;
    assert k2 < k1 ==> d1 < d2;
  }

  lemma TablesMonotone()
    ensures |Rates| == 32 && Decreasing(Rates)
    ensures |Delays| == 4 && Increasing(Delays)
  {
  }

  /**
    The command parameter `rateId | delayId << 5`: the rate index in bits
    0..4, the delay index in bits 5..6, bit 7 clear.
   */
  function ControlByte(rateId: nat, delayId: nat): (cmd: Byte)
    requires rateId < 32 && delayId < 4
    ensures cmd < 128
    ensures cmd % 32 == rateId && cmd / 32 == delayId
  {
    assert Pow2(5) == 32;
    OrDisjoint(rateId, delayId, 5);
    PackSplit(rateId, delayId);
    Or(rateId, delayId * Pow2(5))
  }

  lemma PackSplit(lo: nat, hi: nat)
    requires lo < 32
    ensures (lo + hi * 32) % 32 == lo && (lo + hi * 32) / 32 == hi
  {
  }

  /**
    Requests beyond the ends of a decreasing table: one at or above the
    first entry picks the first, one at or below the last picks the last.
   */
  lemma DecreasingEnds(t: seq<int>, x: int)
    requires |t| > 0 && Decreasing(t)
    ensures x >= t[0] ==> IsNearest(t, x, 0)
    ensures x <= t[|t| - 1] ==> IsNearest(t, x, |t| - 1)
  {
    var last := |t| - 1;
    forall j | 0 < j < |t|
      ensures t[0] > t[j]
    {
      DecreasingApart(t, 0, j);
    }
    forall j | 0 <= j < last
      ensures t[j] > t[last]
    {
      DecreasingApart(t, j, last);
    }
  }

  /**
    Requests beyond the ends of an increasing table: one at or below the
    first entry picks the first, one at or above the last picks the last.
   */
  lemma IncreasingEnds(t: seq<int>, x: int)
    requires |t| > 0 && Increasing(t)
    ensures x <= t[0] ==> IsNearest(t, x, 0)
    ensures x >= t[|t| - 1] ==> IsNearest(t, x, |t| - 1)
  {
    var last := |t| - 1;
    forall j | 0 < j < |t|
      ensures t[0] < t[j]
    {
      IncreasingApart(t, 0, j);
    }
    forall j | 0 <= j < last
      ensures t[j] < t[last]
    {
      IncreasingApart(t, j, last);
    }
  }

  /**
    Boundary requests: 300 and 250 are table entries; a rate of 0 is
    nearest the slowest rate, 20; a delay of 600 is nearer 500 than 750.
   */
  lemma Examples()
    ensures IsNearest(Rates, 300, 0) && Rates[0] == 300
    ensures IsNearest(Delays, 250, 0) && Delays[0] == 250
    ensures IsNearest(Rates, 0, 31) && Rates[31] == 20
    ensures IsNearest(Delays, 600, 1) && Delays[1] == 500
  {
    TablesMonotone();
    DecreasingEnds(Rates, 300);
    DecreasingEnds(Rates, 0);
    IncreasingEnds(Delays, 250);
  }
}
