/**
 * Lane semantics of the vector registers the two kernels use.
 *
 * A register is a fixed-length sequence of lane values (8 lanes of int16
 * or 32 lanes of int8).  Lane 0 is the lowest lane: the byte shifts
 * `slli_si128(v, 2)` / `_mm256_slli_si256_rpl(v, 1)` move every lane one
 * place up and put a zero (or, after an insert, a chosen value) in lane 0.
 */
module Lanes {

  type Vec = seq<int>

  const Int16Min := -32768
  const Int16Max := 32767
  const Int8Min := -128
  const Int8Max := 127

  /** Two's-complement reduction to int16: what add_epi16, sub_epi16 and a C cast to int16_t do. */
  function Wrap16(x: int): int
  {
    (x + 32768) % 65536 - 32768
  }

  predicate IsInt16(x: int)
  {
    Int16Min <= x <= Int16Max
  }

  predicate IsInt8(x: int)
  {
    Int8Min <= x <= Int8Max
  }

  /** Wrap16 lands in the int16 range, leaves int16 values alone and only changes a value by multiples of 2^16. */
  lemma Wrap16Range(x: int)
    ensures IsInt16(Wrap16(x))
    ensures IsInt16(x) ==> Wrap16(x) == x
    ensures (x - Wrap16(x)) % 65536 == 0
  {
  }

  /** Adding back what was subtracted undoes a wrapped subtraction. */
  lemma Wrap16SubAdd(a: int, b: int)
    requires IsInt16(a)
    ensures Wrap16(Wrap16(a - b) + b) == a
  {
    var k := (a - b + 32768) / 65536;
    assert Wrap16(a - b) == a - b - 65536 * k;
    assert Wrap16(a - b) + b + 32768 == (a + 32768) + 65536 * (-k);
  }

  /** Reducing an operand first does not change a wrapped sum. */
  lemma Wrap16Absorb(x: int, y: int)
    ensures Wrap16(Wrap16(x) + y) == Wrap16(x + y)
  {
    var k := (x + 32768) / 65536;
    assert Wrap16(x) == x - 65536 * k;
    assert Wrap16(x) + y + 32768 == (x + y + 32768) + 65536 * (-k);
  }

  /** Two's-complement reduction to int8: what set1_epi8, insert_epi8 and a C cast to int8_t do to an int. */
  function Wrap8(x: int): (r: int)
    ensures IsInt8(r)
    ensures IsInt8(x) ==> r == x
  {
    (x + 128) % 256 - 128
  }

  /** Saturating int8 arithmetic result: adds_epi8 / subs_epi8 clamp to [-128, 127]. */
  function Sat8(x: int): int
  {
    if x < Int8Min then Int8Min else if x > Int8Max then Int8Max else x
  }

  function Max(a: int, b: int): int
  {
    if a >= b then a else b
  }

  function Min(a: int, b: int): int
  {
    if a <= b then a else b
  }

  /** set1: every lane holds x. */
  function Splat<T>(w: nat, x: T): (v: seq<T>)
    ensures |v| == w
  {
    seq(w, _ => x)
  }

  /** Lane-wise max_epi8 / max_epi16. */
  function MaxV(a: Vec, b: Vec): (v: Vec)
    requires |a| == |b|
    ensures |v| == |a|
  {
    seq(|a|, k requires 0 <= k < |a| => Max(a[k], b[k]))
  }

  /** Lane-wise min_epi16. */
  function MinV(a: Vec, b: Vec): (v: Vec)
    requires |a| == |b|
    ensures |v| == |a|
  {
    seq(|a|, k requires 0 <= k < |a| => Min(a[k], b[k]))
  }

  /** Lane-wise adds_epi8. */
  function AddsV(a: Vec, b: Vec): (v: Vec)
    requires |a| == |b|
    ensures |v| == |a|
  {
    seq(|a|, k requires 0 <= k < |a| => Sat8(a[k] + b[k]))
  }

  /** subs_epi8 of every lane by the same amount (the gap costs are broadcast with set1). */
  function SubsV(a: Vec, x: int): (v: Vec)
    ensures |v| == |a|
  {
    seq(|a|, k requires 0 <= k < |a| => Sat8(a[k] - x))
  }

  /** Lane-wise cmpgt. */
  function GtV(a: Vec, b: Vec): (m: seq<bool>)
    requires |a| == |b|
    ensures |m| == |a|
  {
    seq(|a|, k requires 0 <= k < |a| => a[k] > b[k])
  }

  /** Lane-wise cmpeq. */
  function EqV(a: Vec, b: Vec): (m: seq<bool>)
    requires |a| == |b|
    ensures |m| == |a|
  {
    seq(|a|, k requires 0 <= k < |a| => a[k] == b[k])
  }

  /** blendv on whole-lane masks: lane k is taken from b where the mask is set, from a elsewhere. */
  function Blend<T>(a: seq<T>, b: seq<T>, mask: seq<bool>): (v: seq<T>)
    requires |a| == |b| == |mask|
    ensures |v| == |a|
  {
    seq(|a|, k requires 0 <= k < |a| => if mask[k] then b[k] else a[k])
  }

  /** Lane-wise and of two masks. */
  function AndV(a: seq<bool>, b: seq<bool>): (m: seq<bool>)
    requires |a| == |b|
    ensures |m| == |a|
  {
    seq(|a|, k requires 0 <= k < |a| => a[k] && b[k])
  }

  /** Lane-wise or of two masks. */
  function OrV(a: seq<bool>, b: seq<bool>): (m: seq<bool>)
    requires |a| == |b|
    ensures |m| == |a|
  {
    seq(|a|, k requires 0 <= k < |a| => a[k] || b[k])
  }

  /** andnot(a, b): lanes set in b and clear in a. */
  function AndNotV(a: seq<bool>, b: seq<bool>): (m: seq<bool>)
    requires |a| == |b|
    ensures |m| == |a|
  {
    seq(|a|, k requires 0 <= k < |a| => !a[k] && b[k])
  }

  /** movemask(m) != 0: some lane of the mask is set. */
  predicate AnyLane(m: seq<bool>)
  {
    true in m
  }

  /** A shift up by one lane with `fill` inserted at lane 0 (slli by one lane, then insert at lane 0). */
  function ShiftIn<T>(a: seq<T>, fill: T): (v: seq<T>)
    requires |a| > 0
    ensures |v| == |a|
  {
    [fill] + a[..|a| - 1]
  }

  /** p successive shifts by one lane, each inserting `fill`. */
  function ShiftN<T>(a: seq<T>, p: nat, fill: T): (v: seq<T>)
    requires |a| > 0
    ensures |v| == |a|
    decreases p
  {
    if p == 0 then a else ShiftIn(ShiftN(a, p - 1, fill), fill)
  }

  /** After p lane shifts, lane k holds the former lane k - p, and the fill below lane p. */
  lemma {:induction false} ShiftNAt<T>(a: seq<T>, p: nat, fill: T, k: nat)
    requires |a| > 0 && k < |a|
    ensures ShiftN(a, p, fill)[k] == if k < p then fill else a[k - p]
    decreases p
  {
    if p > 0 {
      if k > 0 {
        ShiftNAt(a, p - 1, fill, k - 1);
      }
    }
  }

  /** Overwriting the first not yet updated position of a buffer extends the updated prefix by one. */
  lemma SpliceAppend<T>(A: seq<T>, H: seq<T>, x: T)
    requires |A| < |H|
    ensures (A + H[|A|..])[|A| := x] == (A + [x]) + H[|A| + 1..]
  {
    var a, b := (A + H[|A|..])[|A| := x], (A + [x]) + H[|A| + 1..];
    assert |a| == |b|;
    forall k | 0 <= k < |a| ensures a[k] == b[k] {
    }
  }

  /** hmax: the largest lane. */
  function HMax(a: Vec): int
    requires |a| > 0
  {
    if |a| == 1 then a[0] else Max(HMax(a[..|a| - 1]), a[|a| - 1])
  }

  /** The horizontal maximum bounds every lane and is attained by one. */
  lemma {:induction false} HMaxIsMax(a: Vec)
    requires |a| > 0
    ensures forall k :: 0 <= k < |a| ==> a[k] <= HMax(a)
    ensures exists k :: 0 <= k < |a| && a[k] == HMax(a)
    decreases |a|
  {
    if |a| > 1 {
      var b := a[..|a| - 1];
      HMaxIsMax(b);
      var k0 :| 0 <= k0 < |b| && b[k0] == HMax(b);
      assert forall k :: 0 <= k < |b| ==> a[k] == b[k];
      if HMax(b) >= a[|a| - 1] {
        assert a[k0] == HMax(a);
      } else {
        assert a[|a| - 1] == HMax(a);
      }
    } else {
      assert a[0] == HMax(a);
    }
  }
}
