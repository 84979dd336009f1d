/** The size arithmetic of `PcmConverter::Convert` (include/sound.hpp:149-173). */
module PcmConverter {
  import opened Common

  /** How many output frames a rate converter has emitted after `n` input frames: the exact quotient, rounded down or
      up. */
  function Due(n: nat, inRate: nat, outRate: nat, up: bool): nat
    requires inRate > 0
  {
    if up then (n * outRate + inRate - 1) / inRate else n * outRate / inRate
  }

  const WIDTH: nat := 0x1_0000_0000_0000_0000

  /** The output capacity that `Convert` provides for `n` input frames, in 64-bit arithmetic. */
  function OutCapacity(n: nat, inRate: nat, outRate: nat): nat
    requires inRate > 0
  {
    CapacityFor(n * outRate, inRate)
  }

  function CapacityFor(product: nat, inRate: nat): nat
    requires inRate > 0
  {
    (product % WIDTH / inRate + 1) % WIDTH
  }

  /** Neither the product nor the sum wraps around. */
  predicate NoWrap(n: nat, inRate: nat, outRate: nat)
    requires inRate > 0
  {
    ProductFits(n * outRate, inRate)
  }

  predicate ProductFits(product: nat, inRate: nat)
    requires inRate > 0
  {
    product < WIDTH && product / inRate + 1 < WIDTH
  }

  lemma QuotientOfSum(a: nat, b: nat, d: nat)
    requires d > 0
    ensures a / d + b / d <= (a + b) / d <= a / d + b / d + 1
  {
    var qa, qb, qs := a / d, b / d, (a + b) / d;
    var ra, rb, rs := a % d, b % d, (a + b) % d;
    assert a == d * qa + ra && b == d * qb + rb && a + b == d * qs + rs;
    var up := qs - qa - qb;
    assert d * up == ra + rb - rs by {
      assert d * up == d * qs - d * qa - d * qb;
    }
    NotFarOff(up, d);
    NotFarOff(-up, d);
    assert d * -up == -(d * up);
  }

  lemma NotFarOff(x: int, d: nat)
    ensures x >= 2 ==> d * x >= 2 * d
    ensures x >= 1 ==> d * x >= d
  {
    if x >= 1 {
      assert d * x == d * (x - 1) + d;
    }
    if x >= 2 {
      assert d * x == d * (x - 2) + 2 * d;
    }
  }

  /** Wherever the stream is cut, the capacity for a chunk covers the frames that fall due with it exactly when its
      computation does not wrap around. */
  lemma CapacityEnoughIff(before: nat, n: nat, inRate: nat, outRate: nat, up: bool)
    requires 0 < inRate < 0x1_0000_0000
    ensures Due(before, inRate, outRate, up) <= Due(before + n, inRate, outRate, up)
    ensures Due(before + n, inRate, outRate, up) - Due(before, inRate, outRate, up) <= OutCapacity(n, inRate, outRate)
       <==> NoWrap(n, inRate, outRate)
  {
    hide CapacityFor, ProductFits;
    SumTimes(before, n, outRate);
    var done, product := before * outRate, n * outRate;
    var start := if up then done + inRate - 1 else done;
    RoomIff(start, product, inRate);
    assert Due(before, inRate, outRate, up) == start / inRate;
    assert Due(before + n, inRate, outRate, up) == (start + product) / inRate;
  }

  /** No smaller capacity would do: with output rounded up, a first chunk that does not come out even needs all of it. */
  lemma CapacityNeeded(n: nat, inRate: nat, outRate: nat)
    requires 0 < inRate < 0x1_0000_0000 && NoWrap(n, inRate, outRate) && n * outRate % inRate != 0
    ensures Due(n, inRate, outRate, true) - Due(0, inRate, outRate, true) == OutCapacity(n, inRate, outRate)
  {
    var product := n * outRate;
    CapacityOf(product, inRate);
    RoundedUp(product, inRate);
    RoundedUp(0, inRate);
  }

  lemma RoundedUp(x: nat, d: nat)
    requires d > 0
    ensures (x + d - 1) / d == x / d + if x % d == 0 then 0 else 1
  {
    var q, r := x / d, x % d;
    assert x == d * q + r;
    var q', r' := (x + d - 1) / d, (x + d - 1) % d;
    assert x + d - 1 == d * q' + r';
    var up := q' - q;
    assert d * up == d * q' - d * q == r + d - 1 - r';
    NotFarOff(up, d);
    NotFarOff(-up, d);
    assert d * -up == -(d * up);
    NotFarOff(1 - up, d);
    assert d * (1 - up) == d - d * up;
  }

  lemma RoomIff(start: nat, product: nat, inRate: nat)
    requires 0 < inRate < 0x1_0000_0000
    ensures start / inRate <= (start + product) / inRate
    ensures (start + product) / inRate - start / inRate <= CapacityFor(product, inRate) <==> ProductFits(product, inRate)
  {
    QuotientOfSum(start, product, inRate);
    CapacityOf(product, inRate);
  }

  lemma CapacityOf(product: nat, inRate: nat)
    requires 0 < inRate < 0x1_0000_0000
    ensures if ProductFits(product, inRate) then CapacityFor(product, inRate) == product / inRate + 1
            else CapacityFor(product, inRate) < product / inRate
  {
    var r := product % WIDTH;
    ModOf(product);
    ModOf(r / inRate + 1);
    QuotientAtMost(product, inRate);
    if product >= WIDTH {
      QuotientOfSum(r, product - r, inRate);
      AtLeastTwo(product - r, inRate);
    }
  }

  lemma ModOf(x: nat)
    ensures x % WIDTH <= x
    ensures x < WIDTH ==> x % WIDTH == x
    ensures x == WIDTH ==> x % WIDTH == 0
    ensures x >= WIDTH ==> x - x % WIDTH >= WIDTH
  {
  }

  lemma AtLeastTwo(x: nat, d: nat)
    requires d > 0 && x >= 2 * d
    ensures x / d >= 2
  {
    NotFarOff(2 - x / d, d);
    assert x == d * (x / d) + x % d;
    assert d * (2 - x / d) == 2 * d - d * (x / d);
  }

  lemma QuotientAtMost(x: nat, d: nat)
    requires d > 0
    ensures x / d <= x
  {
    var q: nat := x / d;
    assert x == d * q + x % d;
    TimesAtLeast(d, q);
  }

  lemma {:induction false} TimesAtLeast(d: nat, q: nat)
    requires d > 0
    ensures d * q >= q
  {
    if q > 0 {
      TimesAtLeast(d, q - 1);
      assert d * q == d * (q - 1) + d;
    }
  }

  class Converter {
    const inFrameSize: nat
    const outFrameSize: nat
    const inRate: nat
    const outRate: nat
    const up: bool
    /** Input frames taken and output frames emitted so far. */
    var consumed: nat
    var emitted: nat

    ghost predicate Valid()
      reads this
    {
      inFrameSize > 0 && 0 < inRate < 0x1_0000_0000 && emitted == Due(consumed, inRate, outRate, up)
    }

    constructor (inFrameSize: nat, outFrameSize: nat, inRate: nat, outRate: nat, up: bool)
      requires inFrameSize > 0 && 0 < inRate < 0x1_0000_0000
      ensures Valid() && consumed == emitted == 0
      ensures this.inFrameSize == inFrameSize && this.outFrameSize == outFrameSize
      ensures this.inRate == inRate && this.outRate == outRate && this.up == up
    {
      this.inFrameSize, this.outFrameSize := inFrameSize, outFrameSize;
      this.inRate, this.outRate, this.up := inRate, outRate, up;
      consumed, emitted := 0, 0;
      new;
      if up {
        assert Due(0, inRate, outRate, up) == (inRate - 1) / inRate == 0;
      }
    }

    /** The size in bytes of the converted audio.  The rate converter takes in frames as long as what falls due fits,
        and the rest of the chunk is dropped; when it reports a failure the output is dropped. */
    method Convert(size: nat, succeeds: bool) returns (outBytes: nat)
      requires Valid()
      modifies this
      ensures Valid()
      ensures old(consumed) <= consumed && old(emitted) <= emitted
      ensures consumed <= old(consumed) + size / inFrameSize
      ensures succeeds ==> (consumed == old(consumed) + size / inFrameSize <==> NoWrap(size / inFrameSize, inRate, outRate))
      ensures succeeds ==> outBytes == (emitted - old(emitted)) * outFrameSize
      ensures !succeeds ==> outBytes == 0 && consumed == old(consumed) && emitted == old(emitted)
    {
      hide Due, OutCapacity;
      if size == 0 || !succeeds {
        NoFramesNoWrap(inRate, outRate);
        return 0;
      }
      var inFrameCount := size / inFrameSize;
      var outFrameCount := OutCapacity(inFrameCount, inRate, outRate);
      CapacityEnoughIff(consumed, inFrameCount, inRate, outRate, up);
      var processed := inFrameCount;
      if Due(consumed + inFrameCount, inRate, outRate, up) - emitted > outFrameCount {
        assert inFrameCount > 0;
        processed :| 0 <= processed < inFrameCount && Due(consumed + processed, inRate, outRate, up) - emitted <= outFrameCount
          by { assert Due(consumed + 0, inRate, outRate, up) - emitted <= outFrameCount; }
        CapacityEnoughIff(consumed, processed, inRate, outRate, up);
      }
      consumed := consumed + processed;
      var framesConverted := Due(consumed, inRate, outRate, up) - emitted;
      emitted := emitted + framesConverted;
      outBytes := framesConverted * outFrameSize;
    }
  }

  function Frames(sizes: seq<nat>, inFrameSize: nat): nat
    requires inFrameSize > 0
  {
    if sizes == [] then 0 else Frames(sizes[..|sizes| - 1], inFrameSize) + sizes[|sizes| - 1] / inFrameSize
  }

  lemma NoFramesNoWrap(inRate: nat, outRate: nat)
    requires inRate > 0
    ensures NoWrap(0, inRate, outRate)
  {
    assert 0 * outRate == 0 && 0 / inRate == 0;
  }

  /** The amount of audio that comes out of a fresh converter depends on how many whole frames were taken in, and not on
      how the stream was cut; and all are taken in exactly when no chunk makes the capacity wrap around. */
  method ConvertAll(c: Converter, sizes: seq<nat>) returns (outBytes: nat)
    requires c.Valid() && c.consumed == 0
    modifies c
    ensures c.Valid()
    ensures outBytes == (Due(c.consumed, c.inRate, c.outRate, c.up) - old(c.emitted)) * c.outFrameSize
    ensures c.consumed == Frames(sizes, c.inFrameSize) <==>
            forall size | size in sizes :: NoWrap(size / c.inFrameSize, c.inRate, c.outRate)
  {
    outBytes := 0;
    ghost var start := c.emitted;
    var i := 0;
    while i < |sizes|
      invariant i <= |sizes| && c.Valid() && c.emitted >= start
      invariant c.consumed <= Frames(sizes[..i], c.inFrameSize)
      invariant c.consumed == Frames(sizes[..i], c.inFrameSize) <==>
                forall k | 0 <= k < i :: NoWrap(sizes[k] / c.inFrameSize, c.inRate, c.outRate)
      invariant outBytes == (c.emitted - start) * c.outFrameSize
    {
      assert sizes[..i + 1][..i] == sizes[..i];
      ghost var before, had := c.emitted, c.consumed;
      var n := c.Convert(sizes[i], true);
      CapacityEnoughIff(had, c.consumed - had, c.inRate, c.outRate, c.up);
      SumTimes(before - start, c.emitted - before, c.outFrameSize);
      outBytes := outBytes + n;
      i := i + 1;
    }
    assert sizes[..i] == sizes;
  }

  lemma SumTimes(a: int, b: int, k: nat)
    ensures a * k + b * k == (a + b) * k
  {
  }
}
