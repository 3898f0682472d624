/** The equality `#[derive(PartialEq)]` gives `RespFrame`: same variant and
    equal payloads, recursively, with `f64`'s IEEE 754 equality at `Double`. */
module FrameEquality {
  import opened Wire
  import opened Resp

  const EXPONENT_MASK: bv64 := 0x7FF0_0000_0000_0000
  const FRACTION_MASK: bv64 := 0x000F_FFFF_FFFF_FFFF
  const MAGNITUDE_MASK: bv64 := 0x7FFF_FFFF_FFFF_FFFF

  /** A binary64 NaN: all exponent bits set and a non-zero fraction. */
  predicate IsNaN(d: bv64) {
    d & EXPONENT_MASK == EXPONENT_MASK && d & FRACTION_MASK != 0
  }

  /** +0.0 or -0.0. */
  predicate IsZero(d: bv64) {
    d & MAGNITUDE_MASK == 0
  }

  /** `PartialEq for f64` on bit patterns: NaN equals nothing, the two zeros
      are equal, and otherwise equal values have equal bits. */
  predicate F64Eq(a: bv64, b: bv64) {
    !IsNaN(a) && !IsNaN(b) && (a == b || (IsZero(a) && IsZero(b)))
  }

  predicate FrameEq(a: RespFrame, b: RespFrame)
    decreases a
  {
    match a
    case Double(x) => b.Double? && F64Eq(x, b.bits)
    case Array(x) => b.Array? && FramesEq(x.items, b.arr.items)
    case Set(x) => b.Set? && FramesEq(x.items, b.members.items)
    case Map(x) => b.Map? && EntriesEq(x.entries, b.dict.entries)
    case _ => a == b
  }

  /** `PartialEq for Vec<RespFrame>`: same length, equal element by element. */
  predicate FramesEq(xs: seq<RespFrame>, ys: seq<RespFrame>)
    decreases xs
  {
    |xs| == |ys| && (xs == [] || (FrameEq(xs[0], ys[0]) && FramesEq(xs[1..], ys[1..])))
  }

  /** `PartialEq for BTreeMap<String, RespFrame>`: same length, and the
      entries, in iteration order, have equal keys and equal values. */
  predicate EntriesEq(xs: seq<(Bytes, RespFrame)>, ys: seq<(Bytes, RespFrame)>)
    decreases xs
  {
    |xs| == |ys| &&
    (xs == [] ||
      var x := xs[0];
      assert x in xs && x.1 < x;
      x.0 == ys[0].0 && FrameEq(x.1, ys[0].1) && EntriesEq(xs[1..], ys[1..]))
  }

  /** No `Double` anywhere inside the frame. */
  predicate DoubleFree(f: RespFrame)
    decreases f
  {
    match f
    case Double(_) => false
    case Array(x) => DoubleFreeAll(x.items)
    case Set(x) => DoubleFreeAll(x.items)
    case Map(x) => DoubleFreeEntries(x.entries)
    case _ => true
  }

  predicate DoubleFreeAll(xs: seq<RespFrame>)
    decreases xs
  {
    xs == [] || (DoubleFree(xs[0]) && DoubleFreeAll(xs[1..]))
  }

  predicate DoubleFreeEntries(xs: seq<(Bytes, RespFrame)>)
    decreases xs
  {
    xs == [] ||
      var x := xs[0];
      assert x in xs && x.1 < x;
      DoubleFree(x.1) && DoubleFreeEntries(xs[1..])
  }

  /** Without floating point inside, frame equality is plain structural
      equality: same variant and recursively equal payloads. */
  lemma {:induction false} FrameEqIsEquality(a: RespFrame, b: RespFrame)
    requires DoubleFree(a)
    ensures FrameEq(a, b) <==> a == b
    decreases a
  {
    match a
    case Array(x) =>
      if b.Array? {
        FramesEqIsEquality(x.items, b.arr.items);
      }
    case Set(x) =>
      if b.Set? {
        FramesEqIsEquality(x.items, b.members.items);
      }
    case Map(x) =>
      if b.Map? {
        EntriesEqIsEquality(x.entries, b.dict.entries);
      }
    case _ =>
  }

  lemma {:induction false} FramesEqIsEquality(xs: seq<RespFrame>, ys: seq<RespFrame>)
    requires DoubleFreeAll(xs)
    ensures FramesEq(xs, ys) <==> xs == ys
    decreases xs
  {
    if xs != [] && |xs| == |ys| {
      FrameEqIsEquality(xs[0], ys[0]);
      FramesEqIsEquality(xs[1..], ys[1..]);
      assert xs == [xs[0]] + xs[1..] && ys == [ys[0]] + ys[1..];
    }
  }

  lemma {:induction false} EntriesEqIsEquality(xs: seq<(Bytes, RespFrame)>, ys: seq<(Bytes, RespFrame)>)
    requires DoubleFreeEntries(xs)
    ensures EntriesEq(xs, ys) <==> xs == ys
    decreases xs
  {
    if xs != [] && |xs| == |ys| {
      var x := xs[0];
      assert x in xs && x.1 < x;
      FrameEqIsEquality(x.1, ys[0].1);
      EntriesEqIsEquality(xs[1..], ys[1..]);
      assert xs == [xs[0]] + xs[1..] && ys == [ys[0]] + ys[1..];
    }
  }

  /** Frame equality is symmetric. */
  lemma {:induction false} FrameEqSymmetric(a: RespFrame, b: RespFrame)
    requires FrameEq(a, b)
    ensures FrameEq(b, a)
    decreases a
  {
    match a
    case Array(x) => FramesEqSymmetric(x.items, b.arr.items);
    case Set(x) => FramesEqSymmetric(x.items, b.members.items);
    case Map(x) => EntriesEqSymmetric(x.entries, b.dict.entries);
    case _ =>
  }

  lemma {:induction false} FramesEqSymmetric(xs: seq<RespFrame>, ys: seq<RespFrame>)
    requires FramesEq(xs, ys)
    ensures FramesEq(ys, xs)
    decreases xs
  {
    if xs != [] {
      FrameEqSymmetric(xs[0], ys[0]);
      FramesEqSymmetric(xs[1..], ys[1..]);
    }
  }

  lemma {:induction false} EntriesEqSymmetric(xs: seq<(Bytes, RespFrame)>, ys: seq<(Bytes, RespFrame)>)
    requires EntriesEq(xs, ys)
    ensures EntriesEq(ys, xs)
    decreases xs
  {
    if xs != [] {
      var x := xs[0];
      assert x in xs && x.1 < x;
      FrameEqSymmetric(x.1, ys[0].1);
      EntriesEqSymmetric(xs[1..], ys[1..]);
    }
  }

  /** A NaN `Double` is not equal to itself, so frame equality is not
      reflexive; +0.0 and -0.0 are equal although their bits differ. */
  lemma DoubleEqualityIsIeee()
    ensures !FrameEq(RespFrame.Double(0x7FF8_0000_0000_0000), RespFrame.Double(0x7FF8_0000_0000_0000))
    ensures FrameEq(RespFrame.Double(0x0000_0000_0000_0000), RespFrame.Double(0x8000_0000_0000_0000))
  {
  }
}
